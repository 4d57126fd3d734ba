/** The detailed player lists of the selected week (BattleStatistics.py,
    `legion_time_map` and `create_legion_table`): one column per legion,
    headed by the legion's most frequent hour, listing the legion's players
    of one status and padded with empty cells into a rectangle. */
module Roster {

  import opened Sorting
  import opened Text
  import opened Tally
  import opened Records
  import opened Modes

  /** One column of the roster table. */
  datatype Column = Column(header: string, cells: seq<string>)

  /** `legion_time_map[l]`: the most frequent `Heure` of legion `l` in the
      week, or "N/A" when the legion has no record. */
  function LegionHour(week: seq<Record>, l: string): (h: string)
    ensures (exists r :: r in week && r.legion == l) ==>
              && IsLeastMode(Project(Where(week, LegionOf, l), HourOf), h)
              && exists r :: r in week && r.legion == l && r.hour == h
    ensures (forall r :: r in week ==> r.legion != l) ==> h == NotAvailable
  {
    LegionHourFacts(week, l);
    Mode(Project(Where(week, LegionOf, l), HourOf))
  }

  lemma LegionHourFacts(week: seq<Record>, l: string)
    ensures var group := Where(week, LegionOf, l);
      && (group == [] <==> forall r :: r in week ==> r.legion != l)
      && (group != [] ==> exists r :: r in week && r.legion == l && r.hour == Mode(Project(group, HourOf)))
  {
    var group := Where(week, LegionOf, l);
    if group != [] {
      assert group[0] in group;
      ProjectMembers(group, HourOf);
      assert Mode(Project(group, HourOf)) in Project(group, HourOf);
    } else {
      assert forall r :: r in week && r.legion == l ==> r in group;
    }
  }

  /** `f"Legion {legion} ({time_val})"`, with the hour of the legion. */
  function Header(week: seq<Record>, l: string): (h: string)
    ensures ShowsLegionAt(h, l, LegionHour(week, l))
  {
    HeaderText(l, LegionHour(week, l))
  }

  /** The header of legion `l` at hour `hour`. */
  function HeaderText(l: string, hour: string): (h: string)
    ensures ShowsLegionAt(h, l, hour)
  {
    HeaderShape(l, hour);
    "Legion " + l + " (" + hour + ")"
  }

  /** `h` is `Legion `, then `l`, then ` (`, `hour` and `)`, and nothing
      else. The legion can be read back off the header up to the first
      parenthesis when it has none itself. */
  ghost predicate ShowsLegionAt(h: string, l: string, hour: string) {
    && |h| == 10 + |l| + |hour| && h[..7] == "Legion " && h[7..7 + |l|] == l
    && h[|h| - |hour| - 3..] == " (" + hour + ")"
    && ('(' !in l ==> 8 + |l| <= IndexOf(h, '(') && h[7..IndexOf(h, '(') - 1] == l)
  }

  lemma HeaderShape(l: string, hour: string)
    ensures var h := "Legion " + l + " (" + hour + ")";
      && h[..7] == "Legion "
      && h[7..7 + |l|] == l
      && h[|h| - |hour| - 3..] == " (" + hour + ")"
      && ('(' !in l ==> 8 + |l| <= IndexOf(h, '(') && h[7..IndexOf(h, '(') - 1] == l)
  {
    var h := "Legion " + l + " (" + hour + ")";
    assert h[..7] == "Legion ";
    assert h[7..7 + |l|] == l;
    assert h[|h| - |hour| - 3..] == " (" + hour + ")";
    if '(' !in l {
      HeaderIndex(l, hour);
      assert h[7..8 + |l| - 1] == l;
    }
  }

  lemma HeaderIndex(l: string, hour: string)
    requires '(' !in l
    ensures IndexOf("Legion " + l + " (" + hour + ")", '(') == 8 + |l|
  {
    var a := "Legion " + l + " ";
    var x := "(" + hour + ")";
    assert "Legion " + l + " (" + hour + ")" == a + x;
    assert '(' !in "Legion ";
    AbsentFromJoined("Legion ", l, '(');
    AbsentFromJoined("Legion " + l, " ", '(');
    IndexAfterPrefix(a, x, '(');
  }

  /** Different legions without parentheses get different headers, whatever
      their hours. */
  lemma HeaderNamesLegion(week: seq<Record>, l1: string, l2: string)
    requires '(' !in l1 && '(' !in l2
    requires Header(week, l1) == Header(week, l2)
    ensures l1 == l2
  {
  }

  /** A week in which legion `A` plays at the free-text hour `x) B (y` and
      legion `A (x) B` at the free-text hour `y`. */
  const CollidingWeek: seq<Record> :=
    [Record("P", "A", Date(2024, 1, 8), WeekKey(2024, 2), "x) B (y", 100, "Victory"),
     Record("Q", "A (x) B", Date(2024, 1, 8), WeekKey(2024, 2), "y", 100, "Victory")]

  /** The most frequent hours of the two legions of `CollidingWeek`. */
  lemma CollidingHours()
    ensures LegionHour(CollidingWeek, "A") == "x) B (y"
    ensures LegionHour(CollidingWeek, "A (x) B") == "y"
  {
    FirstLegionHour();
    SecondLegionHour();
  }

  /** Two different legion names whose header texts coincide. */
  lemma CollidingHeaderTexts()
    ensures "A" != "A (x) B"
    ensures "Legion " + "A" + " (" + "x) B (y" + ")" == "Legion " + "A (x) B" + " (" + "y" + ")"
  {
  }

  /** Headers do collide once a legion name holds a parenthesis: an
      unrecognised hour kept as free text can make two legions share one
      header, and `data_dict` then keeps one column for both. */
  lemma HeadersCollideExample()
    ensures Header(CollidingWeek, "A") == Header(CollidingWeek, "A (x) B")
  {
    CollidingHours();
    CollidingHeaderTexts();
  }

  lemma FirstLegionHour()
    ensures LegionHour(CollidingWeek, "A") == "x) B (y"
  {
    var w := CollidingWeek;
    assert "A" != "A (x) B";
    assert w[1..][1..] == [];
    assert Where(w, LegionOf, "A") == [w[0]];
    assert Project([w[0]], HourOf) == ["x) B (y"];
  }

  lemma SecondLegionHour()
    ensures LegionHour(CollidingWeek, "A (x) B") == "y"
  {
    var w := CollidingWeek;
    assert "A" != "A (x) B";
    assert w[1..][1..] == [];
    assert Where(w, LegionOf, "A (x) B") == [w[1]];
    assert Project([w[1]], HourOf) == ["y"];
  }

  /** `subset[subset['Legion'] == legion]['Joueur'].tolist()`: the players of
      legion `l` with status `status`, one entry per record of the legion
      with that status, in record order. */
  function StatusPlayers(week: seq<Record>, status: Status, l: string): (ps: seq<string>)
    ensures |ps| == |Where(Where(week, LegionOf, l), StatusKey, status)|
    ensures forall i :: 0 <= i < |ps| ==> ps[i] == Where(Where(week, LegionOf, l), StatusKey, status)[i].player
  {
    WhereCommutes(week, StatusKey, status, LegionOf, l);
    Project(Where(Where(week, StatusKey, status), LegionOf, l), PlayerOf)
  }

  /** `[""] * n`. */
  function Blanks(n: nat): (b: seq<string>)
    ensures |b| == n
    ensures forall i :: 0 <= i < n ==> b[i] == ""
  {
    seq(n, _ => "")
  }

  /** `names` followed by empty cells up to `height`. */
  function Padded(names: seq<string>, height: nat): (cells: seq<string>)
    requires |names| <= height
    ensures |cells| == height && cells[..|names|] == names
    ensures forall k :: |names| <= k < height ==> cells[k] == ""
  {
    var cells := names + Blanks(height - |names|);
    assert cells[..|names|] == names;
    cells
  }

  /** One entry of `data_dict`: a column name and its list of players. */
  datatype Entry = Entry(key: string, names: seq<string>)

  /** No two entries share a key, as in any Python dict. */
  ghost predicate DistinctKeys(d: seq<Entry>) {
    forall i, j :: 0 <= i < j < |d| ==> d[i].key != d[j].key
  }

  predicate HasKey(d: seq<Entry>, k: string) {
    exists j :: 0 <= j < |d| && d[j].key == k
  }

  /** `d[k] = v` on a dict kept in insertion order: an existing key keeps
      its place and gets the new value, a new key is appended. */
  function Put(d: seq<Entry>, k: string, v: seq<string>): (e: seq<Entry>)
    requires DistinctKeys(d)
    ensures DistinctKeys(e)
    ensures HasKey(d, k) ==> |e| == |d|
    ensures !HasKey(d, k) ==> |e| == |d| + 1 && e[|d|] == Entry(k, v)
    ensures forall j :: 0 <= j < |d| ==> e[j].key == d[j].key
    ensures forall j :: 0 <= j < |d| ==> e[j].names == if d[j].key == k then v else d[j].names
  {
    if HasKey(d, k) then
      seq(|d|, j requires 0 <= j < |d| => if d[j].key == k then Entry(k, v) else d[j])
    else d + [Entry(k, v)]
  }

  /** The keys of a dict, in order. */
  function Keys(d: seq<Entry>): (ks: seq<string>)
    ensures |ks| == |d|
    ensures forall j :: 0 <= j < |d| ==> ks[j] == d[j].key
  {
    seq(|d|, j requires 0 <= j < |d| => d[j].key)
  }

  /** `data_dict` after the assignments `data_dict[headers[i]] = lists[i]`,
      in order. */
  function DataDict(headers: seq<string>, lists: seq<seq<string>>): (d: seq<Entry>)
    requires |headers| == |lists|
    ensures DistinctKeys(d)
  {
    if headers == [] then []
    else Put(DataDict(headers[..|headers| - 1], lists[..|lists| - 1]), headers[|headers| - 1], lists[|lists| - 1])
  }

  /** The headers in order of first occurrence, each once: the key order of
      a dict filled with them. */
  function FirstOccurrences(hs: seq<string>): (ks: seq<string>)
    ensures Distinct(ks)
    ensures forall h :: h in ks <==> h in hs
    ensures forall i, j :: 0 <= i < j < |ks| ==> OccursBefore(hs, ks[i], ks[j])
  {
    if hs == [] then []
    else
      var init := hs[..|hs| - 1];
      var last := hs[|hs| - 1];
      var ks := FirstOccurrences(init);
      assert forall h :: h in hs <==> h in init || h == last by {
        assert hs == init + [last];
      }
      OccursBeforeExtends(hs, ks);
      if last in init then ks
      else
        OccursBeforeLast(hs, ks);
        ks + [last]
  }

  /** `x` occurs in `hs` before the first occurrence of `y`. */
  ghost predicate OccursBefore(hs: seq<string>, x: string, y: string) {
    exists a :: 0 <= a < |hs| && hs[a] == x && y !in hs[..a]
  }

  lemma OccursBeforeExtends(hs: seq<string>, ks: seq<string>)
    requires hs != []
    requires forall i, j :: 0 <= i < j < |ks| ==> OccursBefore(hs[..|hs| - 1], ks[i], ks[j])
    ensures forall i, j :: 0 <= i < j < |ks| ==> OccursBefore(hs, ks[i], ks[j])
  {
    forall i, j | 0 <= i < j < |ks| ensures OccursBefore(hs, ks[i], ks[j]) {
      var a :| 0 <= a < |hs| - 1 && hs[..|hs| - 1][a] == ks[i] && ks[j] !in hs[..|hs| - 1][..a];
      assert hs[..|hs| - 1][..a] == hs[..a];
    }
  }

  lemma OccursBeforeLast(hs: seq<string>, ks: seq<string>)
    requires hs != [] && hs[|hs| - 1] !in hs[..|hs| - 1]
    requires forall h :: h in ks ==> h in hs[..|hs| - 1]
    ensures forall i :: 0 <= i < |ks| ==> OccursBefore(hs, ks[i], hs[|hs| - 1])
  {
    forall i | 0 <= i < |ks| ensures OccursBefore(hs, ks[i], hs[|hs| - 1]) {
      assert ks[i] in ks;
      var a :| 0 <= a < |hs| - 1 && hs[..|hs| - 1][a] == ks[i];
      assert hs[..a] == hs[..|hs| - 1][..a];
    }
  }

  /** The position of the last occurrence of `h` in `hs`, or -1. */
  function LastIndex(hs: seq<string>, h: string): (i: int)
    ensures -1 <= i < |hs|
    ensures i >= 0 ==> hs[i] == h
    ensures forall j :: i < j < |hs| ==> hs[j] != h
    ensures i == -1 <==> h !in hs
  {
    if hs == [] then -1
    else if hs[|hs| - 1] == h then |hs| - 1
    else
      assert forall x :: x in hs <==> x in hs[..|hs| - 1] || x == hs[|hs| - 1] by {
        assert hs == hs[..|hs| - 1] + [hs[|hs| - 1]];
      }
      LastIndex(hs[..|hs| - 1], h)
  }

  /** The length of the longest of `lists`, 0 when there is none. */
  function Longest(lists: seq<seq<string>>): (n: nat)
    ensures forall j :: 0 <= j < |lists| ==> |lists[j]| <= n
    ensures lists != [] ==> exists j :: 0 <= j < |lists| && |lists[j]| == n
    ensures lists == [] ==> n == 0
  {
    if lists == [] then 0
    else
      var m := Longest(lists[..|lists| - 1]);
      if |lists[|lists| - 1]| > m then |lists[|lists| - 1]| else m
  }

  /** `table` is what `pd.DataFrame(data_dict)` shows once the assignments
      `data_dict[headers[i]] = lists[i]` are done and every list is padded:
      one column per distinct header, in order of first occurrence, holding
      the list assigned last under that header, and every column as long as
      the longest of ALL the lists, including lists a later assignment under
      the same header replaced. */
  ghost predicate DictTable(table: seq<Column>, headers: seq<string>, lists: seq<seq<string>>)
    requires |headers| == |lists|
  {
    && |table| == |FirstOccurrences(headers)|
    && (forall j :: 0 <= j < |table| ==> table[j].header == FirstOccurrences(headers)[j])
    && (forall j :: 0 <= j < |table| ==>
          && 0 <= LastIndex(headers, table[j].header)
          && table[j].cells == Padded(lists[LastIndex(headers, table[j].header)], Longest(lists)))
  }

  /** `create_legion_table(status)`: the legions of the week in ascending
      order, each giving the header `Legion l (hour)` and the list of its
      players of the status in record order, assigned into `data_dict` and
      padded with empty cells to the longest list. */
  method CreateLegionTable(week: seq<Record>, status: Status) returns (table: seq<Column>)
    ensures DictTable(table, Headers(week, GroupKeys(week, LegionOf)),
                      StatusLists(week, status, GroupKeys(week, LegionOf)))
  {
    var legions := GroupKeys(week, LegionOf);
    table := FillTable(Headers(week, legions), StatusLists(week, status, legions));
  }

  /** The headers of the legions `ls`. */
  function Headers(week: seq<Record>, ls: seq<string>): (hs: seq<string>)
    ensures |hs| == |ls|
    ensures forall j :: 0 <= j < |ls| ==> hs[j] == Header(week, ls[j])
  {
    if ls == [] then [] else [Header(week, ls[0])] + Headers(week, ls[1..])
  }

  /** The status lists of the legions `ls`. */
  function StatusLists(week: seq<Record>, status: Status, ls: seq<string>): (lists: seq<seq<string>>)
    ensures |lists| == |ls|
    ensures forall j :: 0 <= j < |ls| ==> lists[j] == StatusPlayers(week, status, ls[j])
  {
    if ls == [] then [] else [StatusPlayers(week, status, ls[0])] + StatusLists(week, status, ls[1..])
  }

  /** The two loops of `create_legion_table`: the first assigns every list
      into `data_dict` under its header and finds the longest list, the
      second pads every entry of the dict to that length. */
  method FillTable(headers: seq<string>, lists: seq<seq<string>>) returns (table: seq<Column>)
    requires |headers| == |lists|
    ensures DictTable(table, headers, lists)
  {
    var dict: seq<Entry> := [];
    var maxLength := 0;
    var i := 0;
    while i < |lists|
      invariant 0 <= i <= |lists|
      invariant dict == DataDict(headers[..i], lists[..i])
      invariant maxLength == Longest(lists[..i])
    {
      AssignStep(headers, lists, i);
      dict := Put(dict, headers[i], lists[i]);
      if |lists[i]| > maxLength {
        maxLength := |lists[i]|;
      }
      i := i + 1;
    }
    assert headers[..i] == headers && lists[..i] == lists;
    DictFitsLongest(headers, lists);
    table := PadEntries(dict, maxLength);
    PaddedDictIsTable(headers, lists, table);
  }

  /** One more assignment into `data_dict`, and one more list measured. */
  lemma AssignStep(headers: seq<string>, lists: seq<seq<string>>, i: nat)
    requires |headers| == |lists| && i < |lists|
    ensures DataDict(headers[..i + 1], lists[..i + 1]) == Put(DataDict(headers[..i], lists[..i]), headers[i], lists[i])
    ensures Longest(lists[..i + 1]) == if |lists[i]| > Longest(lists[..i]) then |lists[i]| else Longest(lists[..i])
  {
    assert headers[..i + 1][..i] == headers[..i];
    assert lists[..i + 1][..i] == lists[..i];
  }

  lemma DictFitsLongest(headers: seq<string>, lists: seq<seq<string>>)
    requires |headers| == |lists|
    ensures forall j :: 0 <= j < |DataDict(headers, lists)| ==> |DataDict(headers, lists)[j].names| <= Longest(lists)
  {
    DataDictMeaning(headers, lists);
  }

  lemma PaddedDictIsTable(headers: seq<string>, lists: seq<seq<string>>, table: seq<Column>)
    requires |headers| == |lists|
    requires forall j :: 0 <= j < |DataDict(headers, lists)| ==> |DataDict(headers, lists)[j].names| <= Longest(lists)
    requires |table| == |DataDict(headers, lists)|
    requires forall j :: 0 <= j < |table| ==>
               table[j] == Column(DataDict(headers, lists)[j].key, Padded(DataDict(headers, lists)[j].names, Longest(lists)))
    ensures DictTable(table, headers, lists)
  {
    DataDictMeaning(headers, lists);
  }

  /** What the dict holds: its keys are the headers in order of first
      occurrence, and each key holds the list assigned last under it. */
  lemma DataDictMeaning(headers: seq<string>, lists: seq<seq<string>>)
    requires |headers| == |lists|
    ensures |DataDict(headers, lists)| == |FirstOccurrences(headers)|
    ensures forall j :: 0 <= j < |DataDict(headers, lists)| ==>
              && DataDict(headers, lists)[j].key == FirstOccurrences(headers)[j]
              && 0 <= LastIndex(headers, DataDict(headers, lists)[j].key)
              && DataDict(headers, lists)[j].names == lists[LastIndex(headers, DataDict(headers, lists)[j].key)]
  {
    DictKeys(headers, lists);
    DictNames(headers, lists);
  }

  lemma {:induction false} DictKeys(headers: seq<string>, lists: seq<seq<string>>)
    requires |headers| == |lists|
    ensures Keys(DataDict(headers, lists)) == FirstOccurrences(headers)
  {
    if headers != [] {
      var n := |headers| - 1;
      var hs := headers[..n];
      var ls := lists[..n];
      DictKeys(hs, ls);
      var d := DataDict(hs, ls);
      var h := headers[n];
      KeyOfDict(d, h, hs);
      if HasKey(d, h) {
        assert Keys(Put(d, h, lists[n])) == Keys(d);
      } else {
        assert Keys(Put(d, h, lists[n])) == Keys(d) + [h];
      }
    }
  }

  lemma KeyOfDict(d: seq<Entry>, h: string, hs: seq<string>)
    requires Keys(d) == FirstOccurrences(hs)
    ensures HasKey(d, h) <==> h in hs
  {
    if HasKey(d, h) {
      var j :| 0 <= j < |d| && d[j].key == h;
      assert Keys(d)[j] in FirstOccurrences(hs);
    }
    if h in hs {
      assert h in Keys(d);
      var j :| 0 <= j < |d| && Keys(d)[j] == h;
    }
  }

  lemma {:induction false} DictNames(headers: seq<string>, lists: seq<seq<string>>)
    requires |headers| == |lists|
    ensures forall j :: 0 <= j < |DataDict(headers, lists)| ==>
              && 0 <= LastIndex(headers, DataDict(headers, lists)[j].key)
              && DataDict(headers, lists)[j].names == lists[LastIndex(headers, DataDict(headers, lists)[j].key)]
  {
    if headers != [] {
      var n := |headers| - 1;
      var hs := headers[..n];
      var ls := lists[..n];
      DictNames(hs, ls);
      var d := DataDict(hs, ls);
      var e := DataDict(headers, lists);
      var h := headers[n];
      assert e == Put(d, h, lists[n]);
      forall j | 0 <= j < |e|
        ensures 0 <= LastIndex(headers, e[j].key) && e[j].names == lists[LastIndex(headers, e[j].key)]
      {
        if j < |d| && d[j].key != h {
          assert LastIndex(headers, d[j].key) == LastIndex(hs, d[j].key);
          assert lists[LastIndex(hs, d[j].key)] == ls[LastIndex(hs, d[j].key)];
        } else {
          assert e[j].key == h;
          assert LastIndex(headers, h) == n;
        }
      }
    }
  }

  /** The padding loop: every entry's list extended with empty cells to
      `height` and put under its key. */
  method PadEntries(dict: seq<Entry>, height: nat) returns (table: seq<Column>)
    requires forall j :: 0 <= j < |dict| ==> |dict[j].names| <= height
    ensures |table| == |dict|
    ensures forall j :: 0 <= j < |table| ==> table[j] == Column(dict[j].key, Padded(dict[j].names, height))
  {
    table := [];
    var k := 0;
    while k < |dict|
      invariant 0 <= k <= |dict|
      invariant |table| == k
      invariant forall j :: 0 <= j < k ==> table[j] == Column(dict[j].key, Padded(dict[j].names, height))
    {
      table := table + [Column(dict[k].key, Padded(dict[k].names, height))];
      k := k + 1;
    }
  }

  /** When the headers are distinct, no assignment is overwritten: the table
      has one column per header, in order, each holding its own list. */
  lemma DistinctHeadersKeepEveryList(table: seq<Column>, headers: seq<string>, lists: seq<seq<string>>)
    requires |headers| == |lists| && Distinct(headers)
    requires DictTable(table, headers, lists)
    ensures |table| == |headers|
    ensures forall j :: 0 <= j < |table| ==>
              table[j].header == headers[j] && table[j].cells == Padded(lists[j], Longest(lists))
  {
    DistinctFirstOccurrences(headers);
    forall j | 0 <= j < |headers| ensures LastIndex(headers, headers[j]) == j {
      var i := LastIndex(headers, headers[j]);
      assert headers[j] in headers;
    }
  }

  lemma {:induction false} DistinctFirstOccurrences(hs: seq<string>)
    requires Distinct(hs)
    ensures FirstOccurrences(hs) == hs
  {
    if hs != [] {
      var n := |hs| - 1;
      DistinctFirstOccurrences(hs[..n]);
      assert hs[n] !in hs[..n];
      assert hs == hs[..n] + [hs[n]];
    }
  }

  /** Two assignments under one header leave one column holding the later
      list, padded to the length of the longer, replaced, one. */
  lemma CollidingHeadersExample(table: seq<Column>)
    requires DictTable(table, ["h", "h"], [["p", "r"], ["q"]])
    ensures table == [Column("h", ["q", ""])]
  {
    var hs := ["h", "h"];
    var ls := [["p", "r"], ["q"]];
    assert hs[..1] == ["h"] && hs[..1][..0] == [];
    assert ls[..1] == [["p", "r"]] && ls[..1][..0] == [];
    assert FirstOccurrences(hs) == ["h"];
    assert LastIndex(hs, "h") == 1;
    assert Longest(ls) == 2;
    assert Padded(["q"], 2) == ["q", ""];
  }

  /** A name is listed under legion `l` exactly when some record of the week
      puts that player in `l` with that status. */
  lemma ListedIffRecorded(week: seq<Record>, status: Status, l: string, p: string)
    ensures p in StatusPlayers(week, status, l) <==>
              exists r :: r in week && r.player == p && r.legion == l && StatusOf(r.score) == status
  {
    var mine := Where(week, LegionOf, l);
    var group := Where(mine, StatusKey, status);
    var names := StatusPlayers(week, status, l);
    if exists r :: r in week && r.player == p && r.legion == l && StatusOf(r.score) == status {
      var r :| r in week && r.player == p && r.legion == l && StatusOf(r.score) == status;
      assert r in mine;
      assert r in group;
      var i :| 0 <= i < |group| && group[i] == r;
      assert names[i] == p;
    }
    if p in names {
      var i :| 0 <= i < |names| && names[i] == p;
      assert group[i] in group;
      assert group[i] in mine;
    }
  }

  /** The lists of a status table hold every record of that status once:
      their lengths add up to the number of such records in the week. */
  lemma ListsCoverStatus(week: seq<Record>, status: Status)
    ensures ListLengths(week, status, GroupKeys(week, LegionOf)) == |Where(week, StatusKey, status)|
  {
    var ls := GroupKeys(week, LegionOf);
    ListLengthsAreCounts(week, status, ls);
    assert forall r :: r in Where(week, StatusKey, status) ==> LegionOf(r) in ls;
    CountPartition(Where(week, StatusKey, status), LegionOf, ls);
  }

  /** The added-up lengths of the lists of legions `ls`. */
  function ListLengths(week: seq<Record>, status: Status, ls: seq<string>): nat {
    if ls == [] then 0 else |StatusPlayers(week, status, ls[0])| + ListLengths(week, status, ls[1..])
  }

  lemma {:induction false} ListLengthsAreCounts(week: seq<Record>, status: Status, ls: seq<string>)
    ensures ListLengths(week, status, ls) == CountPerKey(Where(week, StatusKey, status), LegionOf, ls)
  {
    if ls != [] {
      ListLengthsAreCounts(week, status, ls[1..]);
    }
  }

}

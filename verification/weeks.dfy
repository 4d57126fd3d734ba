/** The week labeller and the week selector (BattleStatistics.py, step 2 of
    the preprocessing and the sidebar week filter). Each ISO (year, week)
    bucket is named `"{year} W{week:02d} (dd/mm, dd/mm, ...)"` after the
    distinct dates it holds, the labels are offered newest first, and the
    weekly sections read the records of the chosen label only. */
module Weeks {

  import opened Sorting
  import opened Text
  import opened Tally
  import opened Records

  /** Chronological order on dates, the order `sorted` puts `datetime.date`
      values in. */
  predicate DateLt(a: Date, b: Date) {
    || a.year < b.year
    || (a.year == b.year && a.month < b.month)
    || (a.year == b.year && a.month == b.month && a.day < b.day)
  }

  lemma DateOrderIsTotal()
    ensures StrictTotalOrder(DateLt)
  {
    forall a: Date, b: Date | a != b ensures DateLt(a, b) || DateLt(b, a) {
      assert a.year != b.year || a.month != b.month || a.day != b.day;
    }
  }

  /** `d.strftime('%d/%m')`: two digits of day, a slash, two digits of
      month. */
  function DayMonth(d: Date): (s: string)
    ensures d.day < 100 && d.month < 100 ==>
              && |s| == 5 && s[2] == '/'
              && IsDigits(s[..2]) && DigitsValue(s[..2]) == d.day
              && IsDigits(s[3..]) && DigitsValue(s[3..]) == d.month
  {
    var s := Pad2(d.day) + "/" + Pad2(d.month);
    if d.day < 100 && d.month < 100 then
      assert s[..2] == Pad2(d.day);
      assert s[3..] == Pad2(d.month);
      s
    else s
  }

  /** `sorted(group['Date'].unique())` for the bucket `k`: the distinct dates
      of the records of week `k`, oldest first. */
  function WeekDates(rs: seq<Record>, k: WeekKey): (ds: seq<Date>)
    ensures StrictlySorted(ds, DateLt) && Distinct(ds)
    ensures forall d :: d in ds <==> exists r :: r in rs && r.week == k && r.date == d
  {
    DateOrderIsTotal();
    var group := Where(rs, WeekOf, k);
    var dates := Project(group, DateOf);
    ProjectMembers(group, DateOf);
    var ds := SortDistinct(dates, DateLt);
    assert forall d :: d in ds <==> d in Elems(ds);
    assert forall d :: d in dates <==> d in Elems(dates);
    ds
  }

  /** The label of bucket `k` whose distinct sorted dates are `dates`: the
      year up to the first blank, `W` and the two-digit week, then every
      date between parentheses. */
  function WeekLabel(k: WeekKey, dates: seq<Date>): (title: string)
    ensures NamesKey(title, k)
    ensures ListsDates(title, k, dates)
    ensures forall d :: d in dates ==> Contains(title, DayMonth(d))
  {
    WeekLabelShape(k, dates);
    DatesInLabel(k, dates);
    NatToString(k.year) + " W" + Pad2(k.week) + DatesPart(dates)
  }

  /** After the key part `{year} W{week}` and the opening ` (`, `title`
      lists `dates` in the given order and nothing else: date `i` fills five
      characters seven apart from the previous one, consecutive dates are
      separated by `, `, and the closing parenthesis follows the last one.
      This is read for dates whose day and month have two digits, as
      calendar dates do. */
  ghost predicate ListsDates(title: string, k: WeekKey, dates: seq<Date>) {
    DatesFollow(title, NatToString(k.year) + " W" + Pad2(k.week), dates)
  }

  /** `title` lists `dates` after `key + " ("`, as `ListsDates` says. */
  ghost predicate DatesFollow(title: string, key: string, dates: seq<Date>) {
    (forall d :: d in dates ==> d.day < 100 && d.month < 100) ==>
      ListsAt(title, |key| + 2, Project(dates, DayMonth))
  }

  /** `title` lists the five-character `parts` from position `off` on. */
  ghost predicate ListsAt(title: string, off: nat, parts: seq<string>) {
    && |title| == (if parts == [] then off + 1 else off + 7 * |parts| - 1)
    && forall i :: 0 <= i < |parts| ==>
         && title[off + 7 * i..off + 7 * i + 5] == parts[i]
         && (i + 1 < |parts| ==> title[off + 7 * i + 5..off + 7 * i + 7] == ", ")
  }

  lemma DatesInLabel(k: WeekKey, dates: seq<Date>)
    ensures ListsDates(NatToString(k.year) + " W" + Pad2(k.week) + DatesPart(dates), k, dates)
  {
    DatesAfter(NatToString(k.year) + " W" + Pad2(k.week), dates);
  }

  /** The dates part placed after any `key` lists the dates. */
  lemma DatesAfter(key: string, dates: seq<Date>)
    ensures DatesFollow(key + DatesPart(dates), key, dates)
  {
    if forall d :: d in dates ==> d.day < 100 && d.month < 100 {
      var parts := Project(dates, DayMonth);
      var j := Join(parts, ", ");
      assert forall i :: 0 <= i < |parts| ==> |parts[i]| == 5 by {
        forall i | 0 <= i < |parts| ensures |parts[i]| == 5 {
          assert dates[i] in dates;
        }
      }
      JoinFives(parts);
      FivesInside(key, j, parts);
    }
  }

  /** Parts of five characters joined by `, ` sit seven characters apart. */
  lemma {:induction false} JoinFives(parts: seq<string>)
    requires forall i :: 0 <= i < |parts| ==> |parts[i]| == 5
    ensures var j := Join(parts, ", ");
      && |j| == (if parts == [] then 0 else 7 * |parts| - 2)
      && forall i :: 0 <= i < |parts| ==>
           && j[7 * i..7 * i + 5] == parts[i]
           && (i + 1 < |parts| ==> j[7 * i + 5..7 * i + 7] == ", ")
  {
    if |parts| > 1 {
      var j := Join(parts, ", ");
      var t := Join(parts[1..], ", ");
      JoinFives(parts[1..]);
      assert j == parts[0] + ", " + t;
      assert j[..5] == parts[0] && j[5..7] == ", " && j[7..] == t;
      forall i | 1 <= i < |parts|
        ensures j[7 * i..7 * i + 5] == parts[i]
        ensures i + 1 < |parts| ==> j[7 * i + 5..7 * i + 7] == ", "
      {
        assert parts[1..][i - 1] == parts[i];
        assert j[7 * i..7 * i + 5] == t[7 * (i - 1)..7 * (i - 1) + 5];
        if i + 1 < |parts| {
          assert j[7 * i + 5..7 * i + 7] == t[7 * (i - 1) + 5..7 * (i - 1) + 7];
        }
      }
    }
  }

  /** Parts laid out seven characters apart in `j` are listed from
      `|key| + 2` on in `key + (" (" + j + ")")`. */
  lemma FivesInside(key: string, j: string, parts: seq<string>)
    requires |j| == (if parts == [] then 0 else 7 * |parts| - 2)
    requires forall i :: 0 <= i < |parts| ==>
               && j[7 * i..7 * i + 5] == parts[i]
               && (i + 1 < |parts| ==> j[7 * i + 5..7 * i + 7] == ", ")
    ensures ListsAt(key + (" (" + j + ")"), |key| + 2, parts)
  {
    var t := key + (" (" + j + ")");
    var m := |key| + 2;
    assert t[m..m + |j|] == j;
    forall i | 0 <= i < |parts|
      ensures t[m + 7 * i..m + 7 * i + 5] == parts[i]
      ensures i + 1 < |parts| ==> t[m + 7 * i + 5..m + 7 * i + 7] == ", "
    {
      assert t[m + 7 * i..m + 7 * i + 5] == j[7 * i..7 * i + 5];
      if i + 1 < |parts| {
        assert t[m + 7 * i + 5..m + 7 * i + 7] == j[7 * i + 5..7 * i + 7];
      }
    }
  }

  /** `label` reads `{year} W{week:02d} (...)`: the year can be read up to
      the first blank and the week after the `W`. */
  ghost predicate NamesKey(title: string, k: WeekKey) {
    var sp := IndexOf(title, ' ');
    && sp + 6 <= |title| && title[|title| - 1] == ')'
    && IsDigits(title[..sp]) && DigitsValue(title[..sp]) == k.year
    && title[sp..sp + 2] == " W"
    && (k.week < 100 ==>
          && IsDigits(title[sp + 2..sp + 4]) && DigitsValue(title[sp + 2..sp + 4]) == k.week
          && title[sp + 4..sp + 6] == " (")
  }

  lemma WeekLabelShape(k: WeekKey, dates: seq<Date>)
    ensures var title := NatToString(k.year) + " W" + Pad2(k.week) + DatesPart(dates);
      && NamesKey(title, k)
      && forall d :: d in dates ==> Contains(title, DayMonth(d))
  {
    KeyShape(k, DatesPart(dates));
    DatesListed(NatToString(k.year) + " W" + Pad2(k.week), dates);
  }

  /** The year, the week and a tail opening with ` (` and closing with `)`
      make a text that names the bucket. */
  lemma KeyShape(k: WeekKey, t: string)
    requires |t| >= 2 && t[..2] == " (" && t[|t| - 1] == ')'
    ensures NamesKey(NatToString(k.year) + " W" + Pad2(k.week) + t, k)
  {
    var y := NatToString(k.year);
    var p := Pad2(k.week);
    assert ' ' !in y by {
      assert forall i :: 0 <= i < |y| ==> IsDigit(y[i]);
    }
    SplitAtBlank(y, p, t);
  }

  /** Where the pieces of `{y} W{p}{t}` sit, for a blank-free `y`. */
  lemma SplitAtBlank(y: string, p: string, t: string)
    requires ' ' !in y && |p| >= 2 && |t| >= 2 && t[..2] == " (" && t[|t| - 1] == ')'
    ensures var title := y + " W" + p + t;
      && IndexOf(title, ' ') == |y| && |y| + 6 <= |title| && title[|title| - 1] == ')'
      && title[..|y|] == y && title[|y|..|y| + 2] == " W"
      && (|p| == 2 ==> title[|y| + 2..|y| + 4] == p && title[|y| + 4..|y| + 6] == " (")
  {
    var title := y + " W" + p + t;
    var x := " W" + p + t;
    assert title == y + x;
    IndexAfterPrefix(y, x, ' ');
    assert title[..|y|] == y;
    assert title[|y|..|y| + 2] == " W";
    if |p| == 2 {
      assert title[|y| + 2..|y| + 4] == p;
      assert title[|y| + 4..|y| + 6] == t[..2];
    }
    assert title[|title| - 1] == t[|t| - 1];
  }

  lemma DatesListed(head: string, dates: seq<Date>)
    ensures forall d :: d in dates ==> Contains(head + DatesPart(dates), DayMonth(d))
  {
    var parts := Project(dates, DayMonth);
    var j := Join(parts, ", ");
    assert head + DatesPart(dates) == (head + " (") + j + ")";
    forall d | d in dates ensures Contains(head + DatesPart(dates), DayMonth(d)) {
      var i :| 0 <= i < |dates| && dates[i] == d;
      JoinHoldsParts(parts, ", ", i);
      ContainsInside(head + " (", j, ")", DayMonth(d));
    }
  }

  /** The ` (dd/mm, dd/mm, ...)` part of a label. */
  function DatesPart(dates: seq<Date>): (t: string)
    ensures |t| >= 3 && t[..2] == " (" && t[|t| - 1] == ')'
    ensures t[0] == ' '
  {
    var t := " (" + Join(Project(dates, DayMonth), ", ") + ")";
    assert t[..2] == " (";
    t
  }

  /** `week_date_map[(year, week)]`, the `Week_Label` of every record of
      bucket `k`: it names the bucket and lists the date of each of its
      records. */
  function LabelFor(rs: seq<Record>, k: WeekKey): (title: string)
    ensures NamesKey(title, k)
    ensures ListsDates(title, k, WeekDates(rs, k))
    ensures forall r :: r in rs && r.week == k ==> Contains(title, DayMonth(r.date))
  {
    WeekLabel(k, WeekDates(rs, k))
  }

  /** The `Week_Label` column. */
  function LabelColumn(rs: seq<Record>): (col: seq<string>)
    ensures |col| == |rs|
    ensures forall i :: 0 <= i < |rs| ==> col[i] == LabelFor(rs, rs[i].week)
  {
    Project(rs, (r: Record) => LabelFor(rs, r.week))
  }

  /** A label names its bucket: labels built from different (year, week)
      keys differ, whatever dates they list. */
  lemma LabelNamesWeek(k1: WeekKey, d1: seq<Date>, k2: WeekKey, d2: seq<Date>)
    requires WeekLabel(k1, d1) == WeekLabel(k2, d2)
    ensures k1 == k2
  {
    assert " W" == [' ', 'W'];
    ReadKey(NatToString(k1.year), Pad2(k1.week), DatesPart(d1),
            NatToString(k2.year), Pad2(k2.week), DatesPart(d2), ' ');
  }

  /** The year and the week numerals can be read back off a string of the
      shape `{year}{sep}W{week}{sep}...`. */
  lemma ReadKey(y1: string, w1: string, t1: string, y2: string, w2: string, t2: string, sep: char)
    requires IsDigits(y1) && IsDigits(w1) && IsDigits(y2) && IsDigits(w2) && !IsDigit(sep)
    requires t1 != [] && t1[0] == sep && t2 != [] && t2[0] == sep
    requires y1 + [sep, 'W'] + w1 + t1 == y2 + [sep, 'W'] + w2 + t2
    ensures y1 == y2 && w1 == w2
  {
    var rest1 := [sep, 'W'] + w1 + t1;
    var rest2 := [sep, 'W'] + w2 + t2;
    assert y1 + [sep, 'W'] + w1 + t1 == y1 + rest1;
    assert y2 + [sep, 'W'] + w2 + t2 == y2 + rest2;
    NumeralBeforeSeparator(y1, rest1, y2, rest2, sep);
    assert rest1[2..] == w1 + t1;
    assert rest2[2..] == w2 + t2;
    NumeralBeforeSeparator(w1, t1, w2, t2, sep);
  }

  /** Two records carry the same `Week_Label` exactly when they fall in the
      same (year, week) bucket. */
  lemma SameLabelIffSameWeek(rs: seq<Record>, i: nat, j: nat)
    requires i < |rs| && j < |rs|
    ensures LabelColumn(rs)[i] == LabelColumn(rs)[j] <==> rs[i].week == rs[j].week
  {
    if LabelColumn(rs)[i] == LabelColumn(rs)[j] {
      LabelNamesWeek(rs[i].week, WeekDates(rs, rs[i].week), rs[j].week, WeekDates(rs, rs[j].week));
    }
  }

  /** The labels do not depend on the order of the rows. */
  lemma LabelIgnoresRowOrder(rs: seq<Record>, ss: seq<Record>, k: WeekKey)
    requires multiset(rs) == multiset(ss)
    ensures LabelFor(rs, k) == LabelFor(ss, k)
  {
    assert forall r :: r in rs <==> r in ss by {
      forall r ensures r in rs <==> r in ss {
        assert r in rs <==> r in multiset(rs);
        assert r in ss <==> r in multiset(ss);
      }
    }
    DateOrderIsTotal();
    var a := WeekDates(rs, k);
    var b := WeekDates(ss, k);
    assert Elems(a) == Elems(b) by {
      assert forall d :: d in a <==> d in b;
    }
    SortedUnique(a, b, DateLt);
  }

  /** `sorted(df['Week_Label'].unique(), reverse=True)`: every label once,
      in descending string order. */
  function AvailableWeeks(rs: seq<Record>): (ws: seq<string>)
    ensures StrictlySorted(ws, StrGt) && Distinct(ws)
    ensures forall l :: l in ws <==> exists r :: r in rs && LabelFor(rs, r.week) == l
    ensures |ws| <= |rs|
  {
    StrOrdersAreTotal();
    var col := LabelColumn(rs);
    ProjectMembers(rs, (r: Record) => LabelFor(rs, r.week));
    assert forall l :: l in col <==> exists r :: r in rs && LabelFor(rs, r.week) == l;
    var ws := SortDistinct(col, StrGt);
    assert forall l :: l in ws <==> l in Elems(ws);
    assert forall l :: l in col <==> l in Elems(col);
    ws
  }

  /** Every bucket present in the data is offered: its label stands in the
      menu, and at one position only, which is the menu's lack of repeated
      entries. That different buckets get different entries is
      `AvailableWeekNamesOneKey`. */
  lemma AvailableWeeksOnePerKey(rs: seq<Record>, k: WeekKey)
    requires exists r :: r in rs && r.week == k
    ensures var ws := AvailableWeeks(rs);
      && (exists i :: 0 <= i < |ws| && ws[i] == LabelFor(rs, k))
      && forall i, j :: 0 <= i < |ws| && 0 <= j < |ws| && ws[i] == LabelFor(rs, k) && ws[j] == LabelFor(rs, k) ==> i == j
  {
    var ws := AvailableWeeks(rs);
    var r :| r in rs && r.week == k;
    assert LabelFor(rs, k) in ws;
  }

  /** Conversely every entry of the menu is the label of one bucket present
      in the data, and of no other bucket. */
  lemma AvailableWeekNamesOneKey(rs: seq<Record>, i: nat)
    requires i < |AvailableWeeks(rs)|
    ensures exists r :: r in rs && AvailableWeeks(rs)[i] == LabelFor(rs, r.week)
    ensures forall k1, k2 :: AvailableWeeks(rs)[i] == LabelFor(rs, k1) && AvailableWeeks(rs)[i] == LabelFor(rs, k2) ==> k1 == k2
  {
    assert AvailableWeeks(rs)[i] in AvailableWeeks(rs);
    forall k1, k2 | AvailableWeeks(rs)[i] == LabelFor(rs, k1) && AvailableWeeks(rs)[i] == LabelFor(rs, k2)
      ensures k1 == k2
    {
      LabelNamesWeek(k1, WeekDates(rs, k1), k2, WeekDates(rs, k2));
    }
  }

  /** `df[df['Week_Label'] == selected_week]`. */
  function WeekScope(rs: seq<Record>, selected: string): (week: seq<Record>)
    ensures forall r :: r in week <==> r in rs && LabelFor(rs, r.week) == selected
  {
    Where(rs, (r: Record) => LabelFor(rs, r.week), selected)
  }

  /** Filtering on a bucket's label selects exactly the records of that
      bucket, in their original order. */
  lemma WeekScopeIsWeek(rs: seq<Record>, k: WeekKey)
    ensures WeekScope(rs, LabelFor(rs, k)) == Where(rs, WeekOf, k)
  {
    forall r | r in rs ensures LabelFor(rs, r.week) == LabelFor(rs, k) <==> WeekOf(r) == k {
      if LabelFor(rs, r.week) == LabelFor(rs, k) {
        LabelNamesWeek(r.week, WeekDates(rs, r.week), k, WeekDates(rs, k));
      }
    }
    WhereSameMask(rs, (r: Record) => LabelFor(rs, r.week), LabelFor(rs, k), WeekOf, k);
  }

  /** The label of a concrete bucket: week 2 of 2024 with games on the 8th
      and the 10th of January. */
  lemma WeekLabelExample()
    ensures WeekLabel(WeekKey(2024, 2), [Date(2024, 1, 8), Date(2024, 1, 10)])
         == "2024 W02 (08/01, 10/01)"
  {
    KeyExample();
    DatesExample();
    var head := "2024 W02";
    var tail := " (08/01, 10/01)";
    assert head + tail == "2024 W02 (08/01, 10/01)";
  }

  lemma KeyExample()
    ensures NatToString(2024) + " W" + Pad2(2) == "2024 W02"
  {
    YearExample();
    assert Pad2(2) == "02";
  }

  lemma DatesExample()
    ensures DatesPart([Date(2024, 1, 8), Date(2024, 1, 10)]) == " (08/01, 10/01)"
  {
    DayMonthExamples();
    var parts := Project([Date(2024, 1, 8), Date(2024, 1, 10)], DayMonth);
    assert parts == ["08/01", "10/01"];
    assert parts[1..] == ["10/01"];
  }

  lemma DayMonthExamples()
    ensures DayMonth(Date(2024, 1, 8)) == "08/01"
    ensures DayMonth(Date(2024, 1, 10)) == "10/01"
  {
    assert Pad2(8) == "08" && Pad2(1) == "01";
    assert Pad2(10) == "10" by {
      assert NatToString(10) == NatToString(1) + [DigitChar(0)];
    }
  }

  lemma YearExample()
    ensures NatToString(2024) == "2024"
  {
    assert NatToString(2024) == NatToString(202) + [DigitChar(4)];
    assert NatToString(202) == NatToString(20) + [DigitChar(2)];
    assert NatToString(20) == NatToString(2) + [DigitChar(0)];
  }
}

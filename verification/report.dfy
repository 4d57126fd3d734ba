/** The download names of the two Excel reports (BattleStatistics.py,
    "Exports"): the weekly report is named after the selected week label
    with blanks turned into underscores and parentheses dropped; the global
    report has a fixed name. The workbook contents are not modelled, only
    the sheet names the export writes. */
module Report {

  import opened Text
  import opened Tally
  import opened Records
  import opened Weeks

  /** The sheet the raw records are read from. */
  const SourceSheet: string := "Données Brutes"

  /** The sheets of the weekly report, in writing order. */
  const WeeklySheets: seq<string> := ["Summary", "Active", "Inactive", "Hourly_Stats", "Raw_Data"]

  /** The sheets of the global report, in writing order. */
  const GlobalSheets: seq<string> := ["Global_Stats", "Schedule_Matrix", "Global_Hourly", "Full_History_Raw"]

  const GlobalReportName: string := "Legion_Global_History.xlsx"
  const WeeklyPrefix: string := "Weekly_Report_"
  const Extension: string := ".xlsx"

  /** `selected_week.replace(' ', '_').replace('(', '').replace(')', '')`. */
  function SanitizeLabel(selected: string): (r: string)
    ensures |r| <= |selected|
  {
    RemoveChar(RemoveChar(ReplaceChar(selected, ' ', '_'), '('), ')')
  }

  /** What the sanitiser leaves: no blank and no parenthesis, an underscore
      wherever there was one or a blank, and every other character of the
      label. */
  lemma SanitizeKeeps(selected: string)
    ensures var r := SanitizeLabel(selected);
      && ' ' !in r && '(' !in r && ')' !in r
      && (forall c :: c != ' ' && c != '(' && c != ')' && c != '_' ==> (c in r <==> c in selected))
      && ('_' in r <==> '_' in selected || ' ' in selected)
  {
    var u := ReplaceChar(selected, ' ', '_');
    assert forall c :: c in u <==> (c in selected && c != ' ') || (c == '_' && ' ' in selected) by {
      forall c ensures c in u <==> (c in selected && c != ' ') || (c == '_' && ' ' in selected) {
        if c in selected && c != ' ' {
          var i :| 0 <= i < |selected| && selected[i] == c;
          assert u[i] == c;
        }
        if c == '_' && ' ' in selected {
          var i :| 0 <= i < |selected| && selected[i] == ' ';
          assert u[i] == '_';
        }
      }
    }
    RemoveCharKeeps(u, '(');
    RemoveCharKeeps(RemoveChar(u, '('), ')');
  }

  /** The `file_name` of the weekly download for the selected week label. */
  function ReportFileName(selected: string): (name: string)
    ensures |name| == |WeeklyPrefix| + |SanitizeLabel(selected)| + |Extension|
    ensures name[..|WeeklyPrefix|] == WeeklyPrefix
    ensures name[|WeeklyPrefix|..|name| - |Extension|] == SanitizeLabel(selected)
    ensures name[|name| - |Extension|..] == Extension
    ensures ' ' !in name && '(' !in name && ')' !in name
    ensures forall c :: c in selected && c != ' ' && c != '(' && c != ')' ==> c in name
  {
    NameChars(selected);
    var name := WeeklyPrefix + SanitizeLabel(selected) + Extension;
    assert name[..|WeeklyPrefix|] == WeeklyPrefix;
    assert name[|WeeklyPrefix|..|name| - |Extension|] == SanitizeLabel(selected);
    name
  }

  lemma NameChars(selected: string)
    ensures var name := WeeklyPrefix + SanitizeLabel(selected) + Extension;
      && ' ' !in name && '(' !in name && ')' !in name
      && forall c :: c in selected && c != ' ' && c != '(' && c != ')' ==> c in name
  {
    SanitizeKeeps(selected);
    var s := SanitizeLabel(selected);
    var name := WeeklyPrefix + s + Extension;
    PlainAffixes();
  }

  /** The fixed parts of the name hold no blank and no parenthesis. */
  lemma PlainAffixes()
    ensures ' ' !in WeeklyPrefix && '(' !in WeeklyPrefix && ')' !in WeeklyPrefix
    ensures ' ' !in Extension && '(' !in Extension && ')' !in Extension
  {
    assert forall i :: 0 <= i < |WeeklyPrefix| ==> 'A' <= WeeklyPrefix[i] <= 'z';
    assert forall i :: 0 <= i < |Extension| ==> '.' <= Extension[i] <= 'x';
  }

  /** Sanitising works piece by piece. */
  lemma SanitizeAppend(a: string, b: string)
    ensures SanitizeLabel(a + b) == SanitizeLabel(a) + SanitizeLabel(b)
  {
    assert ReplaceChar(a + b, ' ', '_') == ReplaceChar(a, ' ', '_') + ReplaceChar(b, ' ', '_');
    RemoveCharAppend(ReplaceChar(a, ' ', '_'), ReplaceChar(b, ' ', '_'), '(');
    RemoveCharAppend(RemoveChar(ReplaceChar(a, ' ', '_'), '('), RemoveChar(ReplaceChar(b, ' ', '_'), '('), ')');
  }

  /** A text without blanks or parentheses goes through unchanged. */
  lemma SanitizePlain(s: string)
    requires ' ' !in s && '(' !in s && ')' !in s
    ensures SanitizeLabel(s) == s
  {
    assert ReplaceChar(s, ' ', '_') == s;
    RemoveAbsentChar(s, '(');
    RemoveAbsentChar(s, ')');
  }

  /** A numeral goes through unchanged. */
  lemma SanitizeNumeral(s: string)
    requires IsDigits(s)
    ensures SanitizeLabel(s) == s
  {
    assert ' ' !in s && '(' !in s && ')' !in s;
    SanitizePlain(s);
  }

  /** The sanitised label of a week reads `{year}_W{week:02d}_...`. */
  lemma SanitizedWeekLabel(k: WeekKey, dates: seq<Date>)
    ensures SanitizeLabel(WeekLabel(k, dates))
         == NatToString(k.year) + ['_', 'W'] + Pad2(k.week) + SanitizeLabel(DatesPart(dates))
    ensures SanitizeLabel(DatesPart(dates)) != [] && SanitizeLabel(DatesPart(dates))[0] == '_'
  {
    SanitizeKeyShape(NatToString(k.year), Pad2(k.week), DatesPart(dates));
    SanitizeDatesShape(Join(Project(dates, DayMonth), ", "));
  }

  lemma SanitizeKeyShape(y: string, w: string, t: string)
    requires IsDigits(y) && IsDigits(w)
    ensures SanitizeLabel(y + " W" + w + t) == y + ['_', 'W'] + w + SanitizeLabel(t)
  {
    SanitizeBlankW();
    SanitizeJoined(y, " W", w, t, ['_', 'W']);
  }

  /** The sanitised form of a numeral, a separator `m` that sanitises to
      `n`, a second numeral and a tail. */
  lemma SanitizeJoined(y: string, m: string, w: string, t: string, n: string)
    requires IsDigits(y) && IsDigits(w) && SanitizeLabel(m) == n
    ensures SanitizeLabel(y + m + w + t) == y + n + w + SanitizeLabel(t)
  {
    var u := w + t;
    var v := m + u;
    assert y + m + w + t == y + v;
    SanitizeAppend(y, v);
    SanitizeAppend(m, u);
    SanitizeAppend(w, t);
    SanitizeNumeral(y);
    SanitizeNumeral(w);
    assert SanitizeLabel(y + v) == y + (n + (w + SanitizeLabel(t)));
  }

  lemma SanitizeBlankW()
    ensures SanitizeLabel(" W") == ['_', 'W']
  {
    assert ReplaceChar(" W", ' ', '_') == "_W";
    RemoveAbsentChar("_W", '(');
    RemoveAbsentChar("_W", ')');
  }

  lemma SanitizeDatesShape(j: string)
    ensures SanitizeLabel(" (" + j + ")") != [] && SanitizeLabel(" (" + j + ")")[0] == '_'
  {
    assert " (" + j + ")" == " (" + (j + ")");
    SanitizeAppend(" (", j + ")");
    SanitizeBlankParen();
  }

  lemma SanitizeBlankParen()
    ensures SanitizeLabel(" (") == "_"
  {
    assert ReplaceChar(" (", ' ', '_') == "_(";
    assert RemoveChar("_(", '(') == "_" by {
      assert "_("[1..] == "(";
      assert RemoveChar("(", '(') == [] by {
        assert "("[1..] == [];
      }
    }
    RemoveAbsentChar("_", ')');
  }

  /** Different weeks download under different names: the year and the week
      number survive the sanitising, separated by underscores. */
  lemma ReportNamesSeparateWeeks(rs: seq<Record>, k1: WeekKey, k2: WeekKey)
    requires ReportFileName(LabelFor(rs, k1)) == ReportFileName(LabelFor(rs, k2))
    ensures k1 == k2
  {
    var d1 := WeekDates(rs, k1);
    var d2 := WeekDates(rs, k2);
    var s1 := SanitizeLabel(WeekLabel(k1, d1));
    var s2 := SanitizeLabel(WeekLabel(k2, d2));
    var n1 := ReportFileName(LabelFor(rs, k1));
    assert s1 == n1[|WeeklyPrefix|..|n1| - |Extension|] == s2;
    SanitizedWeekLabel(k1, d1);
    SanitizedWeekLabel(k2, d2);
    ReadKey(NatToString(k1.year), Pad2(k1.week), SanitizeLabel(DatesPart(d1)),
            NatToString(k2.year), Pad2(k2.week), SanitizeLabel(DatesPart(d2)), '_');
  }
}

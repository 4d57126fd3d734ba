/** Cleaning of the raw sheet: the `Heure` normaliser `clean_hour`, the
    `Score` coercion and the `Status` column (BattleStatistics.py, steps 1, 3
    and 4 of the preprocessing). */
module Cleaning {

  import opened Wrappers
  import opened Text
  import opened Tally
  import opened Records

  /** What `clean_hour` tests: `str(val).upper().replace('H', '').strip()`. */
  function HourToken(v: string): (t: string)
    ensures 'H' !in t && forall x :: x in t ==> !('a' <= x <= 'z')
    ensures t != [] ==> !IsSpace(t[0]) && !IsSpace(t[|t| - 1])
  {
    TokenChars(v);
    Strip(RemoveChar(Upper(v), 'H'))
  }

  lemma TokenChars(v: string)
    ensures var t := Strip(RemoveChar(Upper(v), 'H'));
      'H' !in t && forall x :: x in t ==> !('a' <= x <= 'z')
  {
    var u := Upper(v);
    var w := RemoveChar(u, 'H');
    UpperHasNoLower(v);
    RemoveCharKeeps(u, 'H');
    StripKeepsChars(w);
  }

  /** `clean_hour`: an hour token made of digits becomes `NN:00` with the
      number zero-padded to two digits; anything else is returned as it came. */
  function CleanHour(v: string): (r: string)
    ensures IsDigits(HourToken(v)) ==>
              && |r| >= 5 && r[|r| - 3..] == ":00"
              && IsDigits(r[..|r| - 3])
              && DigitsValue(r[..|r| - 3]) == DigitsValue(HourToken(v))
              && (DigitsValue(HourToken(v)) < 100 ==> |r| == 5)
              && (r[0] == '0' ==> DigitsValue(HourToken(v)) < 10)
    ensures !IsDigits(HourToken(v)) ==> r == v
  {
    var t := HourToken(v);
    if IsDigits(t) then
      var r := Pad2(DigitsValue(t)) + ":00";
      assert r[..|r| - 3] == Pad2(DigitsValue(t));
      r
    else v
  }

  /** A character that is neither a lower-case letter, an `H` nor whitespace
      survives into the hour token. */
  lemma KeptInToken(v: string, c: char)
    requires c in v && !IsSpace(c) && !('a' <= c <= 'z') && c != 'H'
    ensures c in HourToken(v)
  {
    var i :| 0 <= i < |v| && v[i] == c;
    assert Upper(v)[i] == c;
    RemoveCharKeeps(Upper(v), 'H');
    KeptByStrip(RemoveChar(Upper(v), 'H'), c);
  }

  /** `clean_hour` is idempotent: a cleaned hour is left as it is, so cleaning
      an already cleaned sheet changes nothing. */
  lemma CleanHourIdempotent(v: string)
    ensures CleanHour(CleanHour(v)) == CleanHour(v)
  {
    var r := CleanHour(v);
    if IsDigits(HourToken(v)) {
      assert r[|r| - 3] == ':';
      KeptInToken(r, ':');
      assert !IsDigit(':');
    }
  }

  /** A numeral, bare or followed by the hour mark `H` or `h`, cleans to
      its value zero-padded to two digits and followed by `:00`. */
  lemma CleanHourOfNumeral(d: string, mark: string)
    requires IsDigits(d)
    requires mark == "" || mark == "H" || mark == "h"
    ensures HourToken(d + mark) == d
    ensures CleanHour(d + mark) == Pad2(DigitsValue(d)) + ":00"
  {
    TokenOfNumeral(d, mark);
  }

  lemma TokenOfNumeral(d: string, mark: string)
    requires IsDigits(d)
    requires mark == "" || mark == "H" || mark == "h"
    ensures HourToken(d + mark) == d
  {
    var m := if mark == "" then "" else "H";
    UpperOfNumeral(d, mark, m);
    assert Upper(d + mark) == d + m;
    RemoveMark(d, m);
    assert RemoveChar(d + m, 'H') == d;
    StripKeepsNumeral(d);
    assert Strip(d) == d;
  }

  lemma UpperOfNumeral(d: string, mark: string, m: string)
    requires IsDigits(d)
    requires mark == "" || mark == "H" || mark == "h"
    requires m == if mark == "" then "" else "H"
    ensures Upper(d + mark) == d + m
  {
    var u := Upper(d + mark);
    forall i | 0 <= i < |u| ensures u[i] == (d + m)[i] {
      if i < |d| {
        assert (d + mark)[i] == d[i];
      } else {
        assert (d + mark)[i] == mark[i - |d|];
      }
    }
  }

  lemma RemoveMark(d: string, m: string)
    requires IsDigits(d)
    requires m == "" || m == "H"
    ensures RemoveChar(d + m, 'H') == d
  {
    RemoveCharAppend(d, m, 'H');
    assert 'H' !in d by {
      assert !IsDigit('H');
    }
    RemoveAbsentChar(d, 'H');
    if m == "" {
      assert d + m == d;
    } else {
      assert m[1..] == [];
    }
  }

  /** The usual spellings of 9 o'clock all normalise to `09:00`. */
  lemma CleanHourNineExamples()
    ensures CleanHour("9H") == "09:00"
    ensures CleanHour("09h") == "09:00"
    ensures CleanHour("9") == "09:00"
  {
    NineUpperExample();
    NineLowerExample();
    NineBareExample();
  }

  lemma NineUpperExample()
    ensures CleanHour("9H") == "09:00"
  {
    NineExample();
    assert "9H" == "9" + "H";
    CleanHourOfNumeral("9", "H");
  }

  lemma NineLowerExample()
    ensures CleanHour("09h") == "09:00"
  {
    NineExample();
    assert "09h" == "09" + "h";
    CleanHourOfNumeral("09", "h");
  }

  lemma NineBareExample()
    ensures CleanHour("9") == "09:00"
  {
    NineExample();
    assert "9" == "9" + "";
    CleanHourOfNumeral("9", "");
  }

  lemma NineExample()
    ensures IsDigits("9") && DigitsValue("9") == 9
    ensures IsDigits("09") && DigitsValue("09") == 9
    ensures Pad2(9) + ":00" == "09:00"
  {
    assert "9"[..0] == [];
    assert "09"[..1] == "0";
    assert "0"[..0] == [];
  }

  /** A label that is already normalised is returned unchanged. */
  lemma CleanHourOfCleanExample()
    ensures CleanHour("14:00") == "14:00"
  {
    KeptInToken("14:00", ':');
  }

  /** Whitespace added on either side of an hour does not change its
      token, hence not whether or how it is normalised. */
  lemma TokenIgnoresPadding(v: string, c: char)
    requires IsSpace(c)
    ensures HourToken([c] + v) == HourToken(v)
    ensures HourToken(v + [c]) == HourToken(v)
  {
    TokenIgnoresLeadingSpace(v, c);
    TokenIgnoresTrailingSpace(v, c);
  }

  lemma TokenIgnoresLeadingSpace(v: string, c: char)
    requires IsSpace(c)
    ensures HourToken([c] + v) == HourToken(v)
  {
    var u := Upper(v);
    assert Upper([c] + v) == [c] + u;
    var w := RemoveChar(u, 'H');
    assert RemoveChar([c] + u, 'H') == [c] + w by {
      assert ([c] + u)[1..] == u;
    }
    assert TrimStart([c] + w) == TrimStart(w) by {
      assert ([c] + w)[1..] == w;
    }
  }

  lemma TokenIgnoresTrailingSpace(v: string, c: char)
    requires IsSpace(c)
    ensures HourToken(v + [c]) == HourToken(v)
  {
    assert Upper(v + [c]) == Upper(v) + [c];
    RemoveKeepsTrailingSpace(Upper(v), c);
    StripDropsTrailingSpace(RemoveChar(Upper(v), 'H'), c);
  }

  lemma RemoveKeepsTrailingSpace(u: string, c: char)
    requires IsSpace(c)
    ensures RemoveChar(u + [c], 'H') == RemoveChar(u, 'H') + [c]
  {
    RemoveCharAppend(u, [c], 'H');
    assert RemoveChar([c], 'H') == [c] by {
      assert [c][1..] == [];
    }
  }

  /** Surrounding whitespace is ignored: a recognised hour cleans to the
      same label with or without padding. */
  lemma CleanHourIgnoresPadding(v: string, c: char, d: char)
    requires IsSpace(c) && IsSpace(d)
    requires IsDigits(HourToken(v))
    ensures CleanHour([c] + v + [d]) == CleanHour(v)
  {
    TokenIgnoresPadding(v, c);
    TokenIgnoresPadding([c] + v, d);
  }

  /** An afternoon hour keeps its two digits. */
  lemma CleanHourFourteenExample()
    ensures CleanHour("14H") == "14:00"
  {
    FourteenExample();
    assert "14H" == "14" + "H";
    CleanHourOfNumeral("14", "H");
  }

  lemma FourteenExample()
    ensures IsDigits("14") && DigitsValue("14") == 14
    ensures Pad2(14) + ":00" == "14:00"
  {
    assert "14"[..1] == "1";
    assert "1"[..0] == [];
    assert NatToString(14) == NatToString(1) + [DigitChar(4)];
  }

  /** A raw `Score` cell as `read_excel` delivers it. */
  datatype ScoreCell = NumberCell(n: int) | TextCell(s: string) | EmptyCell

  /** `.str.replace(',', '').str.replace('.', '')`: both separators are
      treated as digit grouping, never as a decimal point. */
  function RemoveSeparators(s: string): (r: string)
    ensures ',' !in r && '.' !in r
    ensures forall c :: c in r <==> c in s && c != ',' && c != '.'
  {
    RemoveCharKeeps(s, ',');
    RemoveCharKeeps(RemoveChar(s, ','), '.');
    RemoveChar(RemoveChar(s, ','), '.')
  }

  /** The integer numerals `pd.to_numeric` accepts: an optional sign followed
      by ASCII digits. */
  function ParseInt(s: string): (r: Option<int>)
    ensures r.Some? <==> IsDigits(s) || (|s| > 1 && (s[0] == '-' || s[0] == '+') && IsDigits(s[1..]))
    ensures IsDigits(s) ==> r == Some(DigitsValue(s))
    ensures |s| > 1 && s[0] == '-' && IsDigits(s[1..]) ==> r == Some(-(DigitsValue(s[1..]) as int))
    ensures |s| > 1 && s[0] == '+' && IsDigits(s[1..]) ==> r == Some(DigitsValue(s[1..]))
  {
    if |s| > 0 && (s[0] == '-' || s[0] == '+') then
      if IsDigits(s[1..]) then
        var magnitude: int := DigitsValue(s[1..]);
        Some(if s[0] == '-' then -magnitude else magnitude)
      else None
    else if IsDigits(s) then Some(DigitsValue(s))
    else None
  }

  /** Printing an integer and parsing it back gives the integer. */
  lemma ParseIntRoundTrip(n: int)
    ensures ParseInt(IntToString(n)) == Some(n)
  {
    if n < 0 {
      assert IntToString(n)[1..] == NatToString(-n);
    }
  }

  /** The cleaned score: text cells lose their separators and are parsed,
      unparsable text and empty cells become 0 (`errors='coerce'` followed by
      `fillna(0)`), numbers are kept. */
  function CleanScore(c: ScoreCell): (r: int)
    ensures c.NumberCell? ==> r == c.n
    ensures c.EmptyCell? ==> r == 0
    ensures c.TextCell? && IsDigits(RemoveSeparators(c.s)) ==> r == DigitsValue(RemoveSeparators(c.s))
    ensures c.TextCell? && r != 0 ==> ParseInt(RemoveSeparators(c.s)) == Some(r)
    ensures c.TextCell? && ParseInt(RemoveSeparators(c.s)).Some? ==> r == ParseInt(RemoveSeparators(c.s)).value
    ensures c.TextCell? && ParseInt(RemoveSeparators(c.s)).None? ==> r == 0
  {
    match c
    case NumberCell(n) => n
    case TextCell(s) => (match ParseInt(RemoveSeparators(s)) case Some(n) => n case None => 0)
    case EmptyCell => 0
  }

  /** A number in a text-typed column is read back unchanged, so the
      `dtype == 'object'` test only matters for cells that really are text. */
  lemma ScoreOfPrintedNumber(n: int)
    ensures CleanScore(TextCell(IntToString(n))) == CleanScore(NumberCell(n)) == n
  {
    NoSeparatorsKept(IntToString(n));
    ParseIntRoundTrip(n);
  }

  /** Separators anywhere in a score are ignored: deleting them first changes
      nothing. */
  lemma ScoreIgnoresSeparators(s: string)
    ensures CleanScore(TextCell(RemoveSeparators(s))) == CleanScore(TextCell(s))
  {
    NoSeparatorsKept(RemoveSeparators(s));
  }

  lemma NoSeparatorsKept(s: string)
    requires ',' !in s && '.' !in s
    ensures RemoveSeparators(s) == s
  {
    RemoveAbsentChar(s, ',');
    RemoveAbsentChar(s, '.');
  }

  /** One separator between two runs of digits is digit grouping: the
      cell scores the number the two runs spell together. */
  lemma ScoreOfGroupedNumeral(a: string, sep: char, b: string)
    requires IsDigits(a) && IsDigits(b)
    requires sep == ',' || sep == '.'
    ensures IsDigits(a + b)
    ensures CleanScore(TextCell(a + [sep] + b)) == DigitsValue(a + b)
  {
    NumeralsJoin(a, b);
    SeparatorOfGrouped(a, sep, b);
    assert (a + b)[0] == a[0];
  }

  lemma SeparatorOfGrouped(a: string, sep: char, b: string)
    requires IsDigits(a) && IsDigits(b)
    requires sep == ',' || sep == '.'
    ensures RemoveSeparators(a + [sep] + b) == a + b
  {
    NoSeparatorInNumeral(a);
    NoSeparatorInNumeral(b);
    if sep == ',' {
      CommaOfGrouped(a, b);
    } else {
      PeriodOfGrouped(a, b);
    }
  }

  lemma CommaOfGrouped(a: string, b: string)
    requires ',' !in a && '.' !in a && ',' !in b && '.' !in b
    ensures RemoveChar(RemoveChar(a + [','] + b, ','), '.') == a + b
  {
    RemoveOnlyOccurrence(a, b, ',');
    AbsentFromJoined(a, b, '.');
    RemoveAbsentChar(a + b, '.');
  }

  lemma PeriodOfGrouped(a: string, b: string)
    requires ',' !in a && '.' !in a && ',' !in b && '.' !in b
    ensures RemoveChar(RemoveChar(a + ['.'] + b, ','), '.') == a + b
  {
    AbsentFromGrouped(a, '.', b, ',');
    RemoveAbsentChar(a + ['.'] + b, ',');
    RemoveOnlyOccurrence(a, b, '.');
  }

  lemma NoSeparatorInNumeral(d: string)
    requires IsDigits(d)
    ensures ',' !in d && '.' !in d
  {
    assert !IsDigit(',') && !IsDigit('.');
  }

  /** A comma is digit grouping: `1,000` is 1000. */
  lemma ScoreCommaExample()
    ensures CleanScore(TextCell("1,000")) == 1000
  {
    assert "1,000" == "1" + [','] + "000";
    ScoreOfGroupedNumeral("1", ',', "000");
    assert "1" + "000" == "1000";
    ThousandExample();
  }

  lemma ThousandExample()
    ensures DigitsValue("1000") == 1000
  {
    assert "1000"[..3] == "100";
    assert "100"[..2] == "10";
    assert "10"[..1] == "1";
    assert "1"[..0] == [];
  }

  /** A period is digit grouping too, not a decimal point: `1.234` is 1234. */
  lemma ScorePeriodExample()
    ensures CleanScore(TextCell("1.234")) == 1234
  {
    assert "1.234" == "1" + ['.'] + "234";
    ScoreOfGroupedNumeral("1", '.', "234");
    assert "1" + "234" == "1234";
    NumeralExample();
  }

  lemma NumeralExample()
    ensures DigitsValue("1234") == 1234
  {
    assert "1234"[..3] == "123";
    assert "123"[..2] == "12";
    assert "12"[..1] == "1";
    assert "1"[..0] == [];
  }

  /** Text that is not a numeral, and an empty cell, both count as a score of 0. */
  lemma ScoreFallbackExamples()
    ensures CleanScore(TextCell("abc")) == 0
    ensures CleanScore(TextCell("")) == 0
    ensures CleanScore(EmptyCell) == 0
  {
    NoSeparatorsKept("abc");
    assert !IsDigit('a');
    NoSeparatorsKept("");
  }

  /** One row of the raw sheet, with its date already parsed and bucketed. */
  datatype RawRow = RawRow(
    player: string,
    legion: string,
    date: Date,
    week: WeekKey,
    hour: string,
    score: ScoreCell,
    result: string)

  /** The cleaned record of a raw row. */
  function CleanRow(raw: RawRow): (r: Record)
    ensures r.player == raw.player && r.legion == raw.legion && r.result == raw.result
    ensures r.date == raw.date && r.week == raw.week
    ensures r.hour == CleanHour(raw.hour) && r.score == CleanScore(raw.score)
  {
    Record(raw.player, raw.legion, raw.date, raw.week, CleanHour(raw.hour), CleanScore(raw.score), raw.result)
  }

  /** The cleaning pass over the whole sheet: one record per row, in order. */
  function Ingest(raws: seq<RawRow>): (rs: seq<Record>)
    ensures |rs| == |raws|
    ensures forall i :: 0 <= i < |raws| ==> rs[i] == CleanRow(raws[i])
  {
    Project(raws, CleanRow)
  }

  /** A cleaned record written back as a raw row, as the `Raw_Data` and
      `Full_History_Raw` exports hold it: the hour text and the numeric score. */
  function Reload(r: Record): RawRow {
    RawRow(r.player, r.legion, r.date, r.week, r.hour, NumberCell(r.score), r.result)
  }

  /** Cleaning a sheet that was already cleaned gives the same records. */
  lemma IngestIdempotent(raws: seq<RawRow>)
    ensures Ingest(Project(Ingest(raws), Reload)) == Ingest(raws)
  {
    var once := Ingest(raws);
    var twice := Ingest(Project(once, Reload));
    forall i | 0 <= i < |raws| ensures twice[i] == once[i] {
      CleanHourIdempotent(raws[i].hour);
    }
  }
}

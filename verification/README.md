# Legion analytics: a Dafny model of the battle statistics pipeline

`BattleStatistics.py` reads the `Données Brutes` sheet of an uploaded
workbook. Each row is one player's participation in one legion battle:
`Joueur`, `Legion`, `Date`, `Heure`, `Score` and `Result`. The script cleans
the sheet and derives the report from it:

- a weekly legion summary with a `TOTAL` row;
- an hourly histogram of active participations, for the selected week and
  for the whole history;
- per-legion rosters of active and inactive players, headed by each
  legion's most frequent hour;
- a lifetime summary per player;
- a player-by-hour schedule matrix;
- the names and sheet lists of the two Excel downloads.

This project models each of these steps as pure functions over sequences,
plus a few loop methods. It proves what the tables mean: what is counted,
what adds up to what, which orders hold, and which labels identify what.

Modules, in dependency order:

| file | module | models |
|---|---|---|
| sorting.dfy | `Sorting` | `sorted(set(...))`: sorting without duplicates under any strict total order |
| text.dfy | `Wrappers`, `Text` | the Python string built-ins the script calls: `upper`, `replace`, `strip`, `isdigit`, `int`, `str`, `:02d`, `join`, `in`, and string `<` |
| tally.dfy | `Tally` | boolean-mask filtering, column projection, sums and group counts |
| records.dfy | `Records` | the cleaned record; the status rule; `df[df['Score'] > 0]`; group keys; `nunique` |
| mode.dfy | `Modes` | `Series.mode()` followed by taking the first value |
| cleaning.dfy | `Cleaning` | `clean_hour`, the score coercion, the `Status` column, the whole cleaning pass |
| weeks.dfy | `Weeks` | the `Week_Label` column, the week selector, the weekly filter |
| summary.dfy | `Summary` | `final_summary_table`, including the `TOTAL` row |
| roster.dfy | `Roster` | `legion_time_map` and `create_legion_table` |
| hourly.dfy | `Hourly` | `weekly_hourly_stats` and `global_hourly_stats` |
| players.dfy | `Players` | `calculate_win_rate`, `get_preferred_schedule`, `player_stats` |
| schedule.dfy | `Schedule` | `schedule_pivot` with its `TOTAL` column and sort |
| report.dfy | `Report` | the weekly download's file name and the sheet names of both downloads |

Modelling choices:

- **Mode tie-break.** pandas returns a series' modal values sorted in
  ascending order. Taking the first of them therefore gives the *least*
  most-frequent value, by Python's code-point string order. An empty group
  gives `"N/A"`. A tie is not broken by first occurrence.
- **Group order.** `groupby` and `sorted(unique())` produce their keys in
  ascending order. Week labels are offered in descending order.
- **Percentages and means.** They are kept exact, as
  `Ratio(part, whole)` and `Mean(total, count)`, instead of floats.
  `Zero` stands for the literal `0` that a guarded division falls back to.
- **Dates and week keys.** A record carries its parsed date and its ISO
  (year, week) key as given data.
- **The column dict.** `data_dict` is a sequence of (key, list) entries in
  insertion order. Assigning an existing key keeps its place and replaces
  its list, as a Python dict does. Two legions can share a header, and
  `Roster.HeadersCollideExample` shows one week where they do. The table
  then has one column fewer than there are legions.

Two behaviours of the code that a reader might not expect. The model
follows the code in both:

- `clean_hour` returns the *original* cell when the cleaned token is not a
  numeral, not the trimmed token (BattleStatistics.py:38).
- The per-legion `Participation_Rate` has no guard against a zero
  denominator (BattleStatistics.py:100). The guard is not needed:
  `Summary.LegionRowCounts` proves that every legion listed in the summary
  has at least one distinct player. Only the `TOTAL` rate is guarded
  (line 106). `Summary.WeeklySummary` proves it is 0 exactly when the
  week is empty.

## Model

| member | source | states |
|---|---|---|
| Cleaning.CleanHour | BattleStatistics.py:34-38 | if the upper-cased, `H`-free, stripped token is a numeral, the result is that numeral's value padded to at least two digits and followed by `:00`; it is exactly five characters for values below 100, and starts with `0` only for values below 10; otherwise the original value comes back unchanged |
| Cleaning.HourToken | BattleStatistics.py:35 | the token holds no `H` and no lower-case ASCII letter, and neither starts nor ends with whitespace |
| Cleaning.CleanHourIdempotent | BattleStatistics.py:34-40 | cleaning an already cleaned hour changes nothing |
| Cleaning.CleanHourIgnoresPadding | BattleStatistics.py:35-37 | whitespace around a recognised hour does not change its cleaned label |
| Cleaning.TokenIgnoresPadding | BattleStatistics.py:35 | one whitespace character added at either end leaves the hour token unchanged |
| Cleaning.KeptInToken | BattleStatistics.py:35 | a character that is not a lower-case letter, `H` or whitespace survives into the hour token |
| Cleaning.CleanHourOfNumeral | BattleStatistics.py:34-37 | a numeral, bare or followed by `H` or `h`, has itself as hour token and cleans to its value zero-padded to two digits followed by `:00` |
| Cleaning.CleanHourNineExamples | BattleStatistics.py:34-38 | `9H`, `09h` and `9` all clean to `09:00` |
| Cleaning.CleanHourFourteenExample | BattleStatistics.py:34-38 | `14H` cleans to `14:00` |
| Cleaning.CleanHourOfCleanExample | BattleStatistics.py:36-38 | `14:00` is not a numeral once cleaned, so it is returned as it is |
| Cleaning.RemoveSeparators | BattleStatistics.py:61 | the text keeps every character except `,` and `.`, and contains neither |
| Cleaning.ParseInt | BattleStatistics.py:62 | a parse succeeds exactly on an optional sign followed by a non-empty run of ASCII digits; the value is the digits' value (leading zeros allowed), negated after `-` |
| Cleaning.ParseIntRoundTrip | BattleStatistics.py:62 | parsing the decimal text of any integer gives that integer |
| Cleaning.CleanScore | BattleStatistics.py:60-62 | a numeric cell scores its number and an empty cell 0; a text cell whose separator-free text is a numeral scores that numeral's value; a text cell scores what its separator-free text parses to, signed numerals included, and 0 when it does not parse |
| Cleaning.ScoreOfPrintedNumber | BattleStatistics.py:60-62 | an integer cell gets the same score whether the column is numeric or text |
| Cleaning.ScoreIgnoresSeparators | BattleStatistics.py:61-62 | removing separators before scoring changes nothing |
| Cleaning.ScoreOfGroupedNumeral | BattleStatistics.py:61-62 | a comma or a period between two runs of digits is ignored: the cell scores the number the two runs spell together |
| Cleaning.ScoreCommaExample | BattleStatistics.py:61-62 | `1,000` scores 1000 |
| Cleaning.ScorePeriodExample | BattleStatistics.py:61-62 | `1.234` scores 1234: the period is a grouping mark, not a decimal point |
| Cleaning.ScoreFallbackExamples | BattleStatistics.py:62 | unparsable text, empty text and an empty cell all score 0 |
| Cleaning.CleanRow | BattleStatistics.py:40-65 | a cleaned row keeps its player, legion, result, date and week, gets the cleaned hour and the coerced score, and so its status is the status of that score |
| Cleaning.Ingest | BattleStatistics.py:40-65 | the cleaning pass yields one cleaned record per row, in row order |
| Cleaning.IngestIdempotent | BattleStatistics.py:34-65 | running the cleaning pass again on its own output gives the same records |
| Text.Upper | BattleStatistics.py:35 | upper-casing keeps the length, and maps each character independently |
| Text.UpperHasNoLower | BattleStatistics.py:35 | an upper-cased text holds no lower-case ASCII letter |
| Text.RemoveCharKeeps | BattleStatistics.py:35 | `replace(c, '')` removes every `c` and keeps exactly the other characters |
| Text.StripCutsSpaceOnly | BattleStatistics.py:35 | `strip()` returns an infix of its argument, and everything it cuts away on either side is whitespace |
| Text.Strip | BattleStatistics.py:35 | a stripped text neither starts nor ends with whitespace |
| Text.StripKeepsChars | BattleStatistics.py:35 | `strip()` introduces no character |
| Text.Pad2 | BattleStatistics.py:37 | `:02d` gives a numeral of at least two digits for the same value; it has exactly two digits for values below 100, and is the plain numeral from 10 on |
| Text.NatToString | BattleStatistics.py:54 | `str(n)` is a numeral for `n`, with no leading zero |
| Text.JoinHoldsParts | BattleStatistics.py:53 | every part occurs in the joined text |
| Text.Contains | BattleStatistics.py:202 | `sub in s` holds exactly when `sub` occurs at some position of `s` |
| Text.StrOrdersAreTotal | BattleStatistics.py:70 | Python's ascending and descending string orders are strict total orders |
| Sorting.SortDistinct | BattleStatistics.py:51 | the result holds the same elements as the input, strictly sorted, each once |
| Sorting.SortedUnique | BattleStatistics.py:51 | two strictly sorted sequences with the same elements are equal |
| Records.ActiveRecords | BattleStatistics.py:150 | the filter keeps exactly the records with a positive score |
| Records.GroupKeys | BattleStatistics.py:85 | group keys are strictly ascending, distinct, exactly the values occurring in the column, and no more numerous than the records |
| Records.DistinctPlayers | BattleStatistics.py:86 | `nunique` of the players is the number of distinct player keys of the records; it never exceeds the number of records, and is at least one for a non-empty group |
| Records.StatusPartition | BattleStatistics.py:65 | the active and inactive records of any scope add up to the scope |
| Modes.Mode | BattleStatistics.py:88 | an empty group gives `"N/A"`; otherwise the result is a value of the group occurring at least as often as any other, and no equally frequent value sorts before it |
| Modes.LeastModeUnique | BattleStatistics.py:88 | the least most-frequent value is unique |
| Modes.ModeIgnoresOrder | BattleStatistics.py:166 | reordering a group's rows does not change its mode |
| Weeks.DateOrderIsTotal | BattleStatistics.py:51 | chronological order on dates is a strict total order |
| Weeks.DayMonth | BattleStatistics.py:52 | for a day and a month below 100, `%d/%m` is five characters: two digits spelling the day, a slash, two digits spelling the month |
| Weeks.WeekDates | BattleStatistics.py:50-51 | a week's dates are strictly chronological, distinct, and exactly the dates of that week's records |
| Weeks.WeekLabel | BattleStatistics.py:52-54 | the label reads the year up to its first blank, then `W`, then (for weeks below 100) the two-digit week and ` (`, and ends with `)`; after the key the dates' `dd/mm` texts follow in the given order, seven characters apart and separated by `, `, with only the closing `)` after the last (for two-digit days and months) |
| Weeks.LabelFor | BattleStatistics.py:49-55 | the label of a bucket names the bucket's year and week, lists exactly the bucket's distinct dates oldest first, in the layout `WeekLabel` states, and contains the `dd/mm` text of the date of every record in the bucket |
| Weeks.LabelColumn | BattleStatistics.py:57 | every record is labelled with its own week's label |
| Weeks.LabelNamesWeek | BattleStatistics.py:52-55 | equal labels imply an equal (year, week) key, whatever the dates |
| Weeks.SameLabelIffSameWeek | BattleStatistics.py:49-57 | two records share a label if and only if they share a (year, week) key |
| Weeks.LabelIgnoresRowOrder | BattleStatistics.py:50-55 | the label of a week does not depend on the order of the rows |
| Weeks.AvailableWeeks | BattleStatistics.py:70 | the week menu is strictly descending, each label once, and lists exactly the labels that occur |
| Weeks.AvailableWeeksOnePerKey | BattleStatistics.py:70 | every (year, week) key present in the data has its label in the week menu; that it sits at one position only is the menu's lack of repeats |
| Weeks.AvailableWeekNamesOneKey | BattleStatistics.py:70 | every menu entry is the label of a key present in the data, and of no other key |
| Weeks.WeekScope | BattleStatistics.py:74 | the weekly filter keeps exactly the records carrying the selected label |
| Weeks.WeekScopeIsWeek | BattleStatistics.py:57-74 | selecting a week's label yields exactly that week's records, in their original order |
| Weeks.WeekLabelExample | BattleStatistics.py:52-54 | week 2 of 2024 with dates 8 and 10 January is labelled `2024 W02 (08/01, 10/01)` |
| Summary.LegionRows | BattleStatistics.py:85-100 | one aggregated row per listed legion, in the legions' order |
| Summary.LegionRow | BattleStatistics.py:85-100 | the row of legion `l` has `Total_Players` equal to the number of distinct players of its records (never more than the records), `Active` counting its active records and `Active + Inactive` all its records, the sum of its scores, a `Result` that is the least most frequent result of the legion (`N/A` for no record), and the unguarded rate `Active` over players |
| Summary.TotalRow | BattleStatistics.py:102-116 | the `TOTAL` row is named `TOTAL` with result `-`; its players, `Active`, `Inactive` and score are the column sums of the legion rows; its player count is 0 exactly when every row's is; its rate is summed `Active` over summed players when that count is positive, and the literal 0 otherwise |
| Summary.WeeklySummary | BattleStatistics.py:85-117 | the table has one row per legion of the week and then one `TOTAL` row. The legion rows are in strictly ascending legion order, their legions are exactly the legions occurring in the week, and each is the aggregate of its legion. The `TOTAL` row has `Active` equal to the week's active records, `Active + Inactive` equal to its records, the week's score sum, and at most one player per record; its players, `Active`, `Inactive` and score are the column sums of the legion rows; its player count and rate are zero exactly when the week is empty, and otherwise the rate is summed `Active` over summed players |
| Summary.LegionRowCounts | BattleStatistics.py:85-100 | a listed legion has at least one distinct player, so its rate has a non-zero denominator |
| Summary.RateAboveHundredExample | BattleStatistics.py:91-100 | one player with two active records in a legion gives that legion a rate of 2/1, that is 200% |
| Roster.CreateLegionTable | BattleStatistics.py:169-181 | the table is what `data_dict` holds once every legion of the week, in ascending order, has assigned its list of players of the status to its header `Legion l (hour)`: one column per distinct header in order of first occurrence, holding the list assigned last under it, padded with blanks to the length of the longest of all the lists |
| Roster.FillTable | BattleStatistics.py:172-181 | the two loops turn any headers and lists into the table `pd.DataFrame(data_dict)` shows: one padded column per distinct header, holding the list assigned last under it |
| Roster.Put | BattleStatistics.py:178 | assigning into the dict keeps the keys distinct; an existing key keeps its place and gets the new list, a new key is appended with its list, and no other entry changes |
| Roster.DataDict | BattleStatistics.py:172-178 | after the assignments no key occurs twice |
| Roster.DataDictMeaning | BattleStatistics.py:172-178 | the dict's keys are the headers in order of first occurrence, each holding the list assigned last under it |
| Roster.FirstOccurrences | BattleStatistics.py:172-178 | the key order holds each header once, exactly the headers, and a key that stands before another occurs in the headers before the other's first occurrence |
| Roster.LastIndex | BattleStatistics.py:178 | the last position of a header, or -1 exactly when it does not occur |
| Roster.Longest | BattleStatistics.py:173-179 | `max_length` bounds every list, is reached by one of them, and is 0 when there is no list |
| Roster.PadEntries | BattleStatistics.py:180 | the padding loop keeps every key and extends its list with blanks to the given height |
| Roster.DistinctHeadersKeepEveryList | BattleStatistics.py:169-181 | when the headers are distinct the table has one column per header, in order, each holding its own list padded to the longest list |
| Roster.CollidingHeadersExample | BattleStatistics.py:178-181 | two lists `[p, r]` and `[q]` assigned under one header give a single column `[q, ""]`: the later list replaces the earlier, and the padding height still counts the replaced list |
| Roster.LegionHour | BattleStatistics.py:165-167 | the hour of a legion that has records is the least of its most frequent hours and is the hour of one of its records; a legion without records gets `N/A` |
| Roster.Header | BattleStatistics.py:176-177 | the header is `Legion `, the legion, ` (`, the legion's hour and `)`, and nothing else, whatever characters the legion holds; for a legion without `(` the legion can be read back as the text between `Legion ` and the blank before the first `(` |
| Roster.HeaderNamesLegion | BattleStatistics.py:176-177 | two legions without `(` that get the same header are the same legion |
| Roster.HeadersCollideExample | BattleStatistics.py:165-177 | in a week where legion `A` plays at the free-text hour `x) B (y` and legion `A (x) B` at `y`, the two legions get the same header |
| Roster.StatusPlayers | BattleStatistics.py:175 | entry `i` of a legion's list is the player of the `i`-th record, in record order, among the legion's records with the status |
| Roster.StatusLists | BattleStatistics.py:174-175 | the list of each legion holds its players with the status, one per record, in record order |
| Roster.Padded | BattleStatistics.py:180 | padding keeps the names as a prefix and fills up to the height with `""` |
| Roster.Blanks | BattleStatistics.py:180 | `[""] * n` is `n` empty cells |
| Roster.ListedIffRecorded | BattleStatistics.py:170-175 | a name is listed under a legion exactly when some record of the week puts that player in that legion with that status |
| Roster.ListsCoverStatus | BattleStatistics.py:170-175 | the list lengths of a status table add up to the week's records of that status |
| Hourly.HourlyCounts | BattleStatistics.py:150 | histogram hours are strictly ascending; an hour appears exactly when some active record falls on it; each bar is at least 1 and counts the active records at that hour |
| Hourly.HistogramTotal | BattleStatistics.py:228 | the bars add up to the number of active records |
| Hourly.WeekBarBelowGlobal | BattleStatistics.py:150 | a week's bar at an hour never exceeds the global bar at that hour |
| Players.Wins | BattleStatistics.py:202 | won results are exactly the results containing `Victory`, and the won and the other results add up to all results |
| Players.IsWin | BattleStatistics.py:202 | a result counts as won exactly when `Victory` occurs in it |
| Players.WinsExample | BattleStatistics.py:202 | of `Victory` and `Defeat` only `Victory` is won |
| Players.WinRate | BattleStatistics.py:201-204 | the rate is the literal 0 exactly for an empty series; otherwise it is the number of won results over the number of results, between 0 and 100% |
| Players.PreferredSchedule | BattleStatistics.py:205-206 | a player's preferred hour is the least of the most frequent hours, or `"N/A"` when there is none |
| Players.PlayerStats | BattleStatistics.py:208-215 | one row per distinct player, in ascending name order, each the `PlayerStatsRow` of its player |
| Players.PlayerStatsRow | BattleStatistics.py:208-215 | the row of a player names the player; its total is the sum of the player's scores and its mean divides it by the player's number of records; its win rate is `calculate_win_rate` of the player's results, the literal 0 exactly when the player has no record; its participations count the player's active records and its absences the player's zero-score records; its preferred hour is the least most frequent hour of the player's records, `N/A` when there is none |
| Players.ParticipationsAndAbsences | BattleStatistics.py:212-213 | participations plus absences never exceed a player's records, and equal them when no score is negative |
| Players.AbsencesAreInactive | BattleStatistics.py:213 | a player's absences, the records scoring exactly 0, are never more than the player's inactive records |
| Players.AbsencesAreAllInactive | BattleStatistics.py:213 | when no score is negative, the absences are exactly the inactive records |
| Players.ListedPlayerHasRecords | BattleStatistics.py:208-214 | a listed player's mean has a non-zero count, the win rate is wins over records, and the preferred hour is one of the player's hours |
| Players.ParticipationsTotal | BattleStatistics.py:212 | all players' participations add up to the number of active records |
| Players.PlayerExample | BattleStatistics.py:208-213 | a won game scoring 1000 and a lost game scoring 0 give total 1000, one participation, one absence and win rate 1/2 |
| Schedule.PivotRows | BattleStatistics.py:241-244 | each matrix row holds the player's count per hour column and their sum |
| Schedule.CellCount | BattleStatistics.py:241-242 | a cell is the number of times the hour occurs among the player's active records; so it is positive exactly when the player has an active record at that hour, and never exceeds the player's active records |
| Schedule.Pivot | BattleStatistics.py:241-244 | one row per player with an active record, in the players' ascending order; one cell per hour of the active records, counting the player's active records at that hour; a `TOTAL` counting all of the player's active records |
| Schedule.InsertByTotal | BattleStatistics.py:245 | inserting into rows ordered by decreasing `TOTAL` keeps them ordered and adds exactly the one row |
| Schedule.SortByTotal | BattleStatistics.py:245 | the sorted rows are a permutation of the input, with non-increasing `TOTAL` |
| Schedule.ScheduleMatrix | BattleStatistics.py:240-245 | the displayed matrix is a permutation of the pivot rows, one per active player, with non-increasing `TOTAL` |
| Schedule.TotalIsParticipations | BattleStatistics.py:244 | a row's `TOTAL` equals the player's number of active records, which is at least 1 and equals the player's `Participations` |
| Schedule.ColumnIsHistogramBar | BattleStatistics.py:241-243 | summing an hour column of the sorted matrix gives the global histogram's bar at that hour |
| Report.SanitizeLabel | BattleStatistics.py:274 | the sanitised label is no longer than the label |
| Report.SanitizeKeeps | BattleStatistics.py:274 | the sanitised label has no blank and no parenthesis; it contains an underscore exactly when the label had an underscore or a blank; it keeps every other character of the label |
| Report.SanitizeAppend | BattleStatistics.py:274 | sanitising a concatenation sanitises each piece |
| Report.ReportFileName | BattleStatistics.py:274 | the weekly file name is `Weekly_Report_`, then the sanitised label, then `.xlsx`; it holds no blank and no parenthesis, and keeps every other character of the label |
| Report.SanitizedWeekLabel | BattleStatistics.py:54 | a sanitised week label reads year, `_W`, two-digit week, then an underscore-led dates part |
| Report.ReportNamesSeparateWeeks | BattleStatistics.py:274 | two weeks whose downloads get the same file name are the same week |

## Left out

- The Streamlit page: the upload widget, headers, captions, column order, number formatting and the error banner at line 296. They only display data.
- The Plotly charts. Only the tables behind them are modelled, in `Hourly` and as the status counts of `Summary`.
- Reading and writing workbooks. `read_excel` and `ExcelWriter` are I/O. The sheet names are kept as the constants `Report.SourceSheet`, `Report.WeeklySheets`, `Report.GlobalSheets` and `Report.GlobalReportName`.
- Date parsing with `dayfirst=True`, and the ISO `isocalendar()` bucketing. A record's date and (year, week) key are given data. Nothing relates a date to its ISO week, so labels spanning years are not checked.
- The week selector's default: the choice made in the widget is the parameter `selected`.
- Floating point:
  - `Participation_Rate`, `Win_Rate` and `Average_Score` are exact fractions (`Ratio`, `Mean`);
  - `round(..., 2)` and `.round(2)` are not modelled;
  - float scores are not modelled, so a numeric `Score` cell is an integer.
- Players.WinRate: states the unrounded ratio. Line 204 rounds the percentage to two decimals.
- Players.PlayerStats: `Average_Score` is the exact `Mean`, not rounded as at line 216.
- Weeks.WeekLabel: states where each date sits only when every day and month has two digits, as calendar dates do. The model's `Date` does not bound its fields, and `%d/%m` of a three-digit value is not a real case.
- Cleaning.ParseInt: accepts only an optional sign and ASCII digits. `pd.to_numeric` also accepts:
  - surrounding whitespace;
  - decimal and exponent forms;
  - `inf` and `nan`.

  The model gives these a score of 0.
- A float cell in a text-typed column would print with a `.`, which line 61 deletes. That case is not modelled, because numeric cells are integers here.
- Text.Upper: upper-cases only ASCII letters. Python's `upper()` also changes non-ASCII letters, sometimes into several characters.
- Non-ASCII digits. The model's `Text.IsDigits` accepts only ASCII digits. Python's `isdigit()` also accepts other Unicode digits. For some of them, such as superscripts, `int()` then raises, which ends in the error banner.
- Hour cells that are not text (numbers, `datetime.time`, NaN). `clean_hour` calls `str` on them first; the model takes the hour as text.
- Missing `Result` and `Heure` values. `mode()` skips NaN; the model has no NaN, so every record has a text result and hour.
- Schedule.Pivot: keeps the hour columns and the `TOTAL` column apart. In the program, an `Heure` value spelled `TOTAL` names an hour column that line 244 then overwrites with the row sums; the model does not show that overwrite.
- `Joueur` and `Legion` are text in the model. When pandas reads a column of integer legion or player ids, it sorts them numerically (`2` before `10`), while the model sorts the text by code point (`10` before `2`).
- `Score` is an unbounded integer in the model. pandas holds it as `int64`, or as `float64` once `fillna` has run over missing values. The wrap-around of large sums and the float rounding of very large scores are not modelled.
- The weekly file name keeps the `/` and `,` of the dates (for example `Weekly_Report_2024_W02_08/01,_10/01.xlsx`). What a browser makes of the `/` is outside the model.
- The raw-data expander and the `Raw_Data` and `Full_History_Raw` sheets. They show the records unchanged; `Cleaning.Reload` is that view.
- Negative scores. The coercion can produce them (`-5` parses as -5), although the program assumes non-negative scores. The model keeps them. Such a record is `Inactive`, and it is neither a participation nor an absence.

# Attendance confirmation pipeline, modelled in Dafny

This project models the reconciliation core of a weekly school attendance
tool (`main.py`). The tool reads the week's roster exports and the period-level
attendance log and produces two outputs:

* one confirmation letter per teacher, with one attendance table per date;
* a teacher × date spreadsheet recording which confirmation sheets are due.

The model follows the program's five stages:

1. **Roster normalisation** (`roster.dfy`, `dates.dfy`).
   - Each wide roster row names two teachers, `Teacher` and `Teacher.1`.
   - Every file is split into two single-teacher frames. The `Teacher` frame
     comes first, then the `Teacher.1` frame.
   - The frames of all files are concatenated. A week with no roster file
     fails, as `pd.concat([])` does.
   - Rows with an empty cell are dropped.
   - Dates are parsed with `%m/%d/%y`, following the rules of Python's
     `strptime`:
     - a one- or two-digit month, and a day that may also be space-padded;
     - exactly two year digits, with 00-68 meaning 2000-2068 and 69-99
       meaning 1969-1999;
     - the day is checked against the month's length.
   - The first date that does not parse aborts the run.
2. **Attendance pivot** (`pivot.dfy`).
   - The period code loses its first character.
   - The log is restricted to roster students.
   - Rows are grouped by (student, date) in ascending key order.
   - Each group becomes a period → attendance dictionary; a later mark for
     the same period wins.
   - The dictionaries become a frame whose columns `1`..`9` are selected.
     Empty cells hold `""`. If any of the nine columns never occurs, the
     selection fails.
3. **Left join** (`join.dfy`). The roster's (student, date, name) rows are
   merged with the grid on (student, date). Roster order and multiplicity are
   kept. A row without a grid match gets NaN periods.
4. **Letters** (`letters.dfy`).
   - Teachers come in ascending order.
   - Each letter has the letterhead, the greeting, the boilerplate, then one
     heading, table and spacer per date (dates ascending), then the closing
     and a page break.
   - A table is the header row followed by the de-duplicated merged rows of
     that date whose student the teacher has on that date.
5. **Coverage tracker** (`coverage.dfy`).
   - A count of records per (teacher, date), 0 where there is none.
   - Each date column is turned into "count > 0".
   - `TotalSheets` is the number of set cells in a row.

`pipeline.dfy` chains the stages as one run. `scenarios.dfy` works through
small concrete inputs. `ordering.dfy` holds the sorted-key construction
behind pandas' sorted `groupby`, and the code-point order on strings.
`wrappers.dfy` holds `Option` and `Result`.

Where a stage is a loop in the program, it is a method with a `while` loop
proved equal to a specification function:

* the roster-file loop;
* the group loop of the pivot;
* the teacher and date loops that build the flowables;
* the column loop of the tracker.

The properties are proved about those specification functions.

### Consequences of the code worth knowing

* **A period column that never occurs.** A period with no mark in a group is
  rendered as `""` only when some other group of that week has it. The frame
  is built from the dictionaries and `parsed_attd_df[parsed_cols]` selects
  the fixed columns `1`..`9` from it, which raises `KeyError` when no roster
  student has a mark for one of those periods. So a log holding only a `P3`
  mark fails instead of producing a row with eight empty periods
  (`Scenarios.SinglePeriodLogFails`).
* **Students without attendance.** A roster row whose (student, date) has no
  pivot row gets NaN in every period column from the left merge, not `""`.
  These cells are modelled as `Nan` cells.
* **Order.** `groupby` sorts its keys, so teachers, dates and pivot keys come
  in ascending order, not in the order they were first seen.

## Model

| member | source | states |
|---|---|---|
| `Roster.SplitFile` | main.py:23-28 | each file yields twice its row count of candidates; row i gives candidate i with `Teacher` and candidate n+i with `Teacher.1`, both with the row's id, name and date |
| `Roster.Candidates` | main.py:18-30 | 2 × (total rows) candidates, and exactly the two single-teacher projections of every row of every file |
| `Roster.SplitFileMembers` | main.py:23-28 | a file's split holds exactly the two single-teacher projections of each of its rows |
| `Roster.CollectCandidates` | main.py:18-30 | the file loop yields the per-file splits concatenated in file order, 2 × (total rows) candidates |
| `Roster.DropMissing` | main.py:31 | keeps exactly the candidates with no empty field, never more than it received |
| `Roster.DropMissingAppend` | main.py:30-31 | dropping empty rows distributes over concatenation |
| `Roster.SplitFileSurvivors` | main.py:23-31 | after `dropna` a file keeps one record per filled teacher column of each row whose id, name and date are filled |
| `Roster.ParseDates` | main.py:32 | succeeds iff every date parses, then record i carries candidate i's id, name, teacher and parsed date; otherwise reports a date text that fails to parse |
| `Roster.Normalise` | main.py:18-32 | fails with `NoRosterFiles` on an empty file list, and otherwise exactly when some complete candidate's date does not parse; on success one record per complete candidate |
| `Roster.Teachers` | main.py:96 | the roster's teachers, each once, in ascending code-point order, and nothing else |
| `Roster.RosterDates` | main.py:137-143 | the roster's dates, each once, ascending, and nothing else |
| `Roster.RecordsOf` | main.py:96 | one teacher's group: exactly the records with that teacher |
| `Dates.ParseDate` | main.py:32 | an accepted `%m/%d/%y` text denotes a real calendar date in 1969-2068 |
| `Dates.YearField` | main.py:32 | a year field is accepted exactly when it is two digits, and then yields their value |
| `Dates.YearFieldReads` | main.py:32 | every two-digit year field is accepted as its value |
| `Dates.SplitThree` | main.py:32 | three slash-free fields joined by slashes split back into those three fields |
| `Dates.ParseOfFields` | main.py:32 | three fields that read as the month, day and two-digit year of a calendar date in 1969-2068 parse to that date |
| `Dates.SplitSlashesJoin` | main.py:32 | splitting a text at its slashes and joining the parts with slashes gives the text back |
| `Dates.ParseDateIff` | main.py:32 | a text parses to a date iff the date is a real calendar date in 1969-2068 and the text is its month, day and two-digit year spelled in one of the accepted ways, separated by slashes |
| `Dates.ParsedTextSpellsDate` | main.py:32 | a text that parses is a spelling of the date it parses to |
| `Dates.SpelledDateParses` | main.py:32 | every spelling of a calendar date in 1969-2068 parses to that date |
| `Dates.ParseFormattedDate` | main.py:32 | round trip: every date in 1969-2068 written as zero-padded `mm/dd/yy` parses back to itself |
| `Dates.ExpandYear` | main.py:32 | the `%y` century rule lands in 1969-2068 and keeps the two digits |
| `Dates.MonthField` | main.py:32 | an accepted month field is a spelling of the month it yields (`1`-`9` or `01`-`12`); a rejected one spells no month 1-12 |
| `Dates.MonthFieldReads` | main.py:32 | every spelling of a month 1-12 is accepted as that month |
| `Dates.DayField` | main.py:32 | an accepted day field is a spelling of the day it yields (`1`-`9`, space-padded ` 1`-` 9`, or `01`-`31`); a rejected one spells no day 1-31 |
| `Dates.DayFieldReads` | main.py:32 | every spelling of a day 1-31 is accepted as that day |
| `Ordering.SortedKeys` | main.py:45 | groupby keys: strictly ascending, no duplicates, exactly the values that occur |
| `Ordering.SortedUnique` | main.py:45 | two ascending duplicate-free sequences with the same elements are equal, so the key order is determined |
| `Ordering.StrLessIsStrictTotalOrder` | main.py:96 | Python's string comparison is a strict total order |
| `Pivot.StripPrefix` | main.py:39 | `x[1:]`: the first character followed by the result is the original code |
| `Pivot.RosterStudents` | main.py:41 | exactly the student ids on the roster |
| `Pivot.RosterMarks` | main.py:41-42 | exactly the log rows of roster students, with stripped periods, none added |
| `Pivot.RosterMarksInOrder` | main.py:41-42 | the marks are the log filtered in order: mark a is the mark of the a-th kept log row, kept positions strictly increase, and every roster student's row is kept |
| `Pivot.GroupKeys` | main.py:45 | the (student, date) keys, ascending, each once, exactly those that occur |
| `Pivot.GroupOf` | main.py:45 | a group is exactly the marks with its key |
| `Pivot.GroupOfInOrder` | main.py:45 | a group is an in-order subsequence: mark a is the a-th mark with that key, positions strictly increase, and every mark with that key is in it |
| `Pivot.PeriodMap` | main.py:47-48 | the dictionary's keys are exactly the group's periods |
| `Pivot.PeriodMapLastWins` | main.py:47-48 | a period's value is the attendance of its last mark in the group |
| `Pivot.PivotGroups` | main.py:44-53 | the group loop appends one dictionary per key, in key order |
| `Pivot.ColumnsSeen` | main.py:55 | the frame's columns are exactly the keys of some dictionary |
| `Pivot.MissingFrom` | main.py:56-57 | the columns reported missing are exactly the selected ones not in the frame |
| `Pivot.PeriodSeenHasMark` | main.py:44-55 | a column of the frame is the period of some roster-student mark |
| `Pivot.MarkPeriodSeen` | main.py:44-55 | the period of every roster-student mark is a column of the frame |
| `Pivot.ColumnsSeenArePeriods` | main.py:44-55 | a period becomes a column iff some roster student's mark has it |
| `Pivot.PivotFailsIffPeriodUnseen` | main.py:55-57 | the pivot fails iff one of the periods 1..9 has no roster-student mark, and then names exactly those periods |
| `Pivot.GroupKeysAreLogKeys` | main.py:41-45 | the group keys are exactly the (student, date) pairs of roster students' log rows |
| `Pivot.PivotRowPerKey` | main.py:44-57 | on success, one row per (student, date) of roster students' log rows, ascending, no key twice, nine periods each |
| `Pivot.GridRowOf` | main.py:55-57 | a frame row keeps the group's key and has nine periods, column j holding the dictionary's value for period j+1 or `""` |
| `Pivot.Frame` | main.py:55-57 | fails iff some period column occurs in no dictionary, naming exactly those columns; otherwise one row per dictionary, in order |
| `Pivot.AttendanceGrid` | main.py:38-57 | on success every row has nine periods and the key of some roster student's log row, and the keys strictly ascend |
| `Pivot.LogPeriodMapStep` | main.py:39-48 | one more log row sets a group's entry for its period when it is a roster student's row of that group, and leaves every other entry alone |
| `Pivot.LogPeriodsAbsent` | main.py:39-48 | a group's dictionary has no entry for a period no roster-student log row of that group has |
| `Pivot.LogPeriodsLast` | main.py:39-48 | a group's entry for a period is the attendance of the last log row, in log order, of that student, date and period |
| `Pivot.PivotCell` | main.py:38-57 | a cell is the attendance of the last log row, in log order, with the row's student and date and that period, or `""` when there is none |
| `Join.Matches` | main.py:59-63 | the grid rows a roster row matches are exactly those with its (student, date) |
| `Join.MatchesAtMostOne` | main.py:59-63 | with unique grid keys a roster row matches at most one grid row |
| `Join.JoinOne` | main.py:59-63 | a roster row gives at least one merged row, each with its id, date and name; the first has NaN periods iff no grid row has its key, and then it is the only one; present periods come from a grid row with its key |
| `Join.LeftJoin` | main.py:59-63 | at least one merged row per roster row, each carrying a roster row's id, date and name, and periods, when present, from a grid row with that key |
| `Join.JoinedRowOf` | main.py:59-63 | the merged row keeps the roster row's id, date and name; NaN periods iff no grid row has its key, otherwise the periods of such a row |
| `Join.LeftJoinStep` | main.py:59-63 | appending one roster row's merged rows keeps every merged row tied to a roster row and to a grid row with its key |
| `Join.LeftJoinKeepsRoster` | main.py:59-63 | with unique grid keys the merge has one row per roster row, in roster order, each the merged row of that roster row |
| `Letters.DropDuplicates` | main.py:111 | no row twice, and the same rows as before |
| `Letters.DropDuplicatesOfDistinct` | main.py:111 | a duplicate-free sequence is left unchanged (so de-duplication is idempotent) |
| `Letters.StudentsOn` | main.py:109 | exactly the ids the group has on that date |
| `Letters.Selected` | main.py:110 | exactly the merged rows of that date whose id is in the set |
| `Letters.ConfirmationRows` | main.py:108-111 | a table body has no row twice and holds exactly the merged rows of that date whose student the teacher has on that date |
| `Letters.RowCells` | main.py:158 | a body row is the name followed by the nine periods, or by nine NaN cells |
| `Letters.TableOf` | main.py:157-159 | the header row first, then one row per body row in order |
| `Letters.DateSection` | main.py:113-117 | a date's heading, then a table made of the header row and one row per confirmation row of that teacher on that date, in order, then a spacer |
| `Letters.Sections` | main.py:108-117 | three blocks per date, in the order of the dates: the date's heading; the table of the teacher's confirmation rows on that date; a spacer |
| `Letters.Opening` | main.py:97-106 | six blocks, starting with the letterhead and the greeting of the teacher, greeting nobody else and holding no table or page break |
| `Letters.TeacherLetter` | main.py:96-121 | a letter is 8 + 3 × (its dates) blocks: letterhead, greeting, then for each date in ascending order its heading followed by the table of the teacher's confirmation rows on that date, ending with the closing and a page break |
| `Letters.LettersFor` | main.py:95-121 | at least eight blocks per teacher; empty for no teachers; otherwise it greets the first teacher first and ends with a page break |
| `Letters.Document` | main.py:95-121 | the document is empty iff the roster is; otherwise it opens with the letter to the first teacher in ascending order and ends with a page break |
| `Letters.CompileSections` | main.py:108-117 | the date loop yields heading, table and spacer per teacher date, ascending |
| `Letters.CompileLetters` | main.py:95-121 | the teacher loop yields the letters of all teachers in ascending order |
| `Letters.SectionsHaveNoLetterBlocks` | main.py:108-117 | date sections hold no greeting and no page break |
| `Letters.LetterLayout` | main.py:96-121 | opening, date sections and closing place the letterhead, the greeting, section block k at 6 + k (so date k's heading at 6 + 3k), the closing and the page break |
| `Letters.AppendLetter` | main.py:95-121 | appending a letter to earlier letters keeps the first letterhead and greeting and ends with the letter's page break |
| `Letters.LetterCounts` | main.py:96-121 | around sections without greetings or page breaks, a letter greets only its teacher, once, and breaks the page once |
| `Letters.TeacherLetterCounts` | main.py:96-121 | a letter greets its teacher once, nobody else, and has one page break |
| `Letters.CountsAppend` | main.py:95-121 | appending one teacher's letter adds one page break and that teacher's one greeting to the counts |
| `Letters.LettersForCounts` | main.py:95-121 | for distinct teachers, one page break per teacher and one greeting for each listed teacher only |
| `Letters.OneLetterPerTeacher` | main.py:95-121 | the document has one page break per roster teacher, and greets each roster teacher once and no one else |
| `Letters.MatchesByKey` | main.py:59-63 | roster rows with the same key match the same grid rows |
| `Letters.OneMergedRowPerStudent` | main.py:59-63 | with unique keys and consistent names, every merged row with a roster row's key is that row's merged row |
| `Letters.RowPerRecord` | main.py:59-63 | in a row-for-row merge, the only merged row with a record's student and date is that record's merged row |
| `Letters.EnrolledStudentListedOnce` | main.py:108-111 | with unique grid keys and consistent names, each student a teacher has on a date appears in that date's table exactly once, matched or not |
| `Coverage.CountFrame` | main.py:137-143 | one row per teacher and one cell per date, holding that pair's record count |
| `Coverage.Count` | main.py:137-143 | the count is the number of roster records with that teacher and date |
| `Coverage.CountPositiveIff` | main.py:137-145 | a count is positive iff that teacher has a record on that date |
| `Coverage.FlagColumn` | main.py:144-145 | column j of every row becomes the flag "count > 0" and every other cell stays |
| `Coverage.MarkSheets` | main.py:144-145 | the column loop turns every count into the flag "count > 0" |
| `Coverage.TrueCount` | main.py:147 | the row sum is the number of set cells |
| `Coverage.FlagsCountDates` | main.py:147 | over distinct dates, the number of set flags is the number of those dates on which the teacher has records |
| `Coverage.TotalSheetsIsDateCount` | main.py:147 | a teacher's flag count is the number of distinct dates they have records on |
| `Coverage.ExpectedTracker` | main.py:137-147 | the columns are the roster dates in ascending order, one row per roster teacher in ascending order, each as wide as the columns |
| `Coverage.TrackerShape` | main.py:137-143 | columns are the roster dates, ascending and distinct; rows are the roster teachers, each once; every row is as wide as the columns |
| `Coverage.TrackerCells` | main.py:137-145 | a cell is set iff that teacher has a record on that date |
| `Coverage.TrackerTotals` | main.py:147 | `TotalSheets` is the row's number of set cells and the number of distinct dates the teacher has records on |
| `Coverage.TrackCoverage` | main.py:137-147 | the count, flag and total steps build the tracker described by the three lemmas above |
| `Pipeline.WeekReport` | main.py:12-147 | no roster file fails first; a successful run has a roster and a pivot, letters iff the roster has records, and one tracker row per roster teacher |
| `Pipeline.RunWeek` | main.py:12-147 | the run performs the stages in order, returns the roster error first, then the pivot error, otherwise the letters and the tracker |
| `Pipeline.RunFailsIff` | main.py:30-57 | a run fails iff there is no roster file, a complete roster row's date does not parse, or one of periods 1..9 has no roster-student mark |
| `Pipeline.JoinKeepsRoster` | main.py:41-63 | merging the roster with its own pivot keeps every roster row once, in order |
| `Pipeline.SuccessfulRunGreetsEachTeacherOnce` | main.py:95-121 | a successful run greets each roster teacher in exactly one letter and nobody else |
| `Pipeline.SuccessfulRunTracksRecords` | main.py:137-145 | in a successful run a tracker cell is set iff that teacher has a record on that date |
| `Scenarios.ExampleDateParses` | main.py:32 | `09/04/24` is 4 September 2024 |
| `Scenarios.TwoTeacherRowSplits` | main.py:18-32 | a row naming Smith and Jones yields the Smith record, then the Jones record |
| `Scenarios.SinglePeriodLogFails` | main.py:44-57 | a log holding one `P3` mark fails, naming every period except 3 |

## Left out

- File discovery and reading (`glob`, `read_excel` with `skiprows=3`, `read_csv`) and the column renames. Roster rows and the attendance log are parameters, already in the renamed shape.
- Parsing attendance dates with `to_datetime` and no format (main.py:38). Log rows carry a parsed `Date`.
- Roster date cells that pandas already reads as datetimes, and the spellings `to_datetime` treats as missing rather than as a mismatch (`""`, `"nan"`, `"NaT"`). Every roster date is text, and a text that does not match the format is an error.
- Digits outside ASCII, which Python's `\d` also accepts in `strptime`.
- Schema errors from a missing input column. The typed rows always have the five columns.
- Pandas' dtype handling: the float student ids that NaN cells cause, and comparing ids across frames of different dtypes. Ids are integers.
- The `%d-%b-%Y` heading text, and the fonts, widths, paddings and spacer sizes of the PDF. A heading carries its `Date`, static paragraphs are abstract blocks, and rendering (`SimpleDocTemplate.build`) is not part of this model.
- Writing the tracker to Excel and the PDF to disk. The run returns the blocks and the tracker.
- The `Period` and `Attendance` cells of the log are typed strings. A missing or non-text `Period`, on which `x[1:]` raises `TypeError` (main.py:39), is not modelled, and neither is a missing `Attendance`, which `fillna('')` turns into `""` in the grid (main.py:55).

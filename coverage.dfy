/**
 * The confirmation-sheet tracker: a teacher x date table of record counts
 * whose columns are turned into "has at least one record" flags, with a
 * `TotalSheets` column counting each teacher's flags.
 */
module Coverage {
  import opened Wrappers
  import opened Ordering
  import opened Dates
  import opened Roster

  /** A cell of the tracker frame: a record count, or the flag it became. */
  datatype SheetCell = Tally(count: nat) | Flag(due: bool)

  /** One spreadsheet row: a teacher, one flag per date column, and `TotalSheets`. */
  datatype TrackerRow = TrackerRow(teacher: string, sheets: seq<bool>, totalSheets: nat)

  /** The spreadsheet: its date columns and its teacher rows. */
  datatype Tracker = Tracker(dates: seq<Date>, rows: seq<TrackerRow>)

  /** Some roster record has exactly this (teacher, date). */
  ghost predicate HasRecord(roster: seq<RosterRecord>, t: string, d: Date) {
    exists i :: 0 <= i < |roster| && roster[i].teacher == t && roster[i].date == d
  }

  /** The dates on which teacher `t` has records. */
  ghost function TeacherDateSet(roster: seq<RosterRecord>, t: string): set<Date> {
    set i | 0 <= i < |roster| && roster[i].teacher == t :: roster[i].date
  }

  /** The positions of the records of teacher `t` on date `d`. */
  ghost function RecordsAt(roster: seq<RosterRecord>, t: string, d: Date): set<int> {
    set i | 0 <= i < |roster| && roster[i].teacher == t && roster[i].date == d
  }

  /** `aggfunc='count'`: the number of records of teacher `t` on date `d` (0 where pandas fills NaN). */
  function Count(roster: seq<RosterRecord>, t: string, d: Date): (n: nat)
    ensures n == |RecordsAt(roster, t, d)|
  {
    if roster == [] then 0
    else
      var k := |roster| - 1;
      var last := roster[k];
      assert RecordsAt(roster, t, d) == RecordsAt(roster[..k], t, d) + (if last.teacher == t && last.date == d then {k} else {});
      Count(roster[..k], t, d) + (if last.teacher == t && last.date == d then 1 else 0)
  }

  /** A count is positive exactly when a record with that teacher and date exists. */
  lemma {:induction false} CountPositiveIff(roster: seq<RosterRecord>, t: string, d: Date)
    ensures Count(roster, t, d) > 0 <==> HasRecord(roster, t, d)
  {
    if roster != [] {
      var n := |roster| - 1;
      CountPositiveIff(roster[..n], t, d);
      if HasRecord(roster[..n], t, d) {
        var i :| 0 <= i < n && roster[..n][i].teacher == t && roster[..n][i].date == d;
        assert roster[i] == roster[..n][i];
      }
      if HasRecord(roster, t, d) && !(roster[n].teacher == t && roster[n].date == d) {
        var i :| 0 <= i < |roster| && roster[i].teacher == t && roster[i].date == d;
        assert roster[..n][i] == roster[i];
      }
    }
  }

  /** The positions of the set cells of a row of flags. */
  ghost function SetCells(flags: seq<bool>): set<int> {
    set i | 0 <= i < |flags| && flags[i]
  }

  /** `sum(axis=1)` over a row of flags: the number of true cells. */
  function TrueCount(flags: seq<bool>): (n: nat)
    ensures n == |SetCells(flags)|
  {
    if flags == [] then 0
    else
      var k := |flags| - 1;
      assert SetCells(flags) == SetCells(flags[..k]) + (if flags[k] then {k} else {});
      TrueCount(flags[..k]) + (if flags[k] then 1 else 0)
  }

  /** The vectorised `df[col] = df[col] > 0` on column `j`: that column becomes flags, nothing else changes. */
  function FlagColumn(frame: seq<seq<SheetCell>>, j: nat): (r: seq<seq<SheetCell>>)
    requires forall i :: 0 <= i < |frame| ==> j < |frame[i]| && frame[i][j].Tally?
    ensures |r| == |frame|
    ensures forall i :: 0 <= i < |frame| ==> |r[i]| == |frame[i]| && r[i][j] == Flag(frame[i][j].count > 0)
    ensures forall i, k :: 0 <= i < |frame| && 0 <= k < |frame[i]| && k != j ==> r[i][k] == frame[i][k]
  {
    seq(|frame|, i requires 0 <= i < |frame| => frame[i][j := Flag(frame[i][j].count > 0)])
  }

  /**
   * Over distinct dates, the number of dates flagged for `t` is the number of
   * distinct dates on which `t` has records among them.
   */
  lemma {:induction false} FlagsCountDates(roster: seq<RosterRecord>, t: string, ds: seq<Date>, flags: seq<bool>)
    requires Distinct(ds) && |flags| == |ds|
    requires forall k :: 0 <= k < |ds| ==> (flags[k] <==> HasRecord(roster, t, ds[k]))
    ensures TrueCount(flags) == |set d | d in ds && HasRecord(roster, t, d)|
  {
    if ds == [] {
      assert (set d | d in ds && HasRecord(roster, t, d)) == {};
    } else {
      var n := |ds| - 1;
      FlagsCountDates(roster, t, ds[..n], flags[..n]);
      assert TrueCount(flags) == TrueCount(flags[..n]) + (if flags[n] then 1 else 0);
      var before := set d | d in ds[..n] && HasRecord(roster, t, d);
      var all := set d | d in ds && HasRecord(roster, t, d);
      assert ds == ds[..n] + [ds[n]];
      assert ds[n] !in before;
      if HasRecord(roster, t, ds[n]) {
        assert all == before + {ds[n]};
      } else {
        assert all == before;
      }
    }
  }

  /** `TotalSheets` of a teacher is the number of distinct dates on which they have records. */
  lemma TotalSheetsIsDateCount(roster: seq<RosterRecord>, t: string)
    ensures var ds := RosterDates(roster);
      TrueCount(seq(|ds|, k requires 0 <= k < |ds| => Count(roster, t, ds[k]) > 0)) == |TeacherDateSet(roster, t)|
  {
    var ds := RosterDates(roster);
    var flags := seq(|ds|, k requires 0 <= k < |ds| => Count(roster, t, ds[k]) > 0);
    forall k | 0 <= k < |ds| ensures flags[k] <==> HasRecord(roster, t, ds[k]) {
      CountPositiveIff(roster, t, ds[k]);
    }
    FlagsCountDates(roster, t, ds, flags);
    var s := set d | d in ds && HasRecord(roster, t, d);
    forall d ensures d in s <==> d in TeacherDateSet(roster, t) {
      if d in TeacherDateSet(roster, t) {
        var i :| 0 <= i < |roster| && roster[i].teacher == t && roster[i].date == d;
        assert HasRecord(roster, t, d);
      }
    }
    assert s == TeacherDateSet(roster, t);
  }

  /** The loop over the date columns: every count of the frame becomes the flag "count > 0". */
  method MarkSheets(frame: seq<seq<SheetCell>>, width: nat) returns (marked: seq<seq<SheetCell>>)
    requires forall i :: 0 <= i < |frame| ==> |frame[i]| == width
    requires forall i, k :: 0 <= i < |frame| && 0 <= k < width ==> frame[i][k].Tally?
    ensures |marked| == |frame|
    ensures forall i :: 0 <= i < |frame| ==> |marked[i]| == width
    ensures forall i, k :: 0 <= i < |frame| && 0 <= k < width ==> marked[i][k] == Flag(frame[i][k].count > 0)
  {
    marked := frame;
    var j := 0;
    while j < width
      invariant 0 <= j <= width
      invariant |marked| == |frame|
      invariant forall i :: 0 <= i < |frame| ==> |marked[i]| == width
      invariant forall i, k :: 0 <= i < |frame| && 0 <= k < j ==> marked[i][k] == Flag(frame[i][k].count > 0)
      invariant forall i, k :: 0 <= i < |frame| && j <= k < width ==> marked[i][k] == frame[i][k]
    {
      marked := FlagColumn(marked, j);
      j := j + 1;
    }
  }

  /** `pivot_table(..., aggfunc='count').fillna(0)`: one row per teacher, one count per date. */
  function CountFrame(roster: seq<RosterRecord>, teachers: seq<string>, dates: seq<Date>): (frame: seq<seq<SheetCell>>)
    ensures |frame| == |teachers|
    ensures forall i :: 0 <= i < |teachers| ==> |frame[i]| == |dates|
    ensures forall i, k :: 0 <= i < |teachers| && 0 <= k < |dates| ==> frame[i][k] == Tally(Count(roster, teachers[i], dates[k]))
  {
    seq(|teachers|, i requires 0 <= i < |teachers| =>
      seq(|dates|, k requires 0 <= k < |dates| => Tally(Count(roster, teachers[i], dates[k]))))
  }

  function RowOf(teacher: string, cells: seq<SheetCell>): TrackerRow
    requires forall k :: 0 <= k < |cells| ==> cells[k].Flag?
  {
    var sheets := seq(|cells|, k requires 0 <= k < |cells| => cells[k].due);
    TrackerRow(teacher, sheets, TrueCount(sheets))
  }

  /** The tracker row of teacher `t`: a flag per date, and their count. */
  function ExpectedRow(roster: seq<RosterRecord>, t: string, dates: seq<Date>): TrackerRow {
    var sheets := seq(|dates|, k requires 0 <= k < |dates| => Count(roster, t, dates[k]) > 0);
    TrackerRow(t, sheets, TrueCount(sheets))
  }

  /**
   * The tracker stated cell by cell: a column per roster date and a row per
   * roster teacher, both ascending, "count > 0" in each cell.
   */
  function ExpectedTracker(roster: seq<RosterRecord>): (tracker: Tracker)
    ensures tracker.dates == RosterDates(roster)
    ensures |tracker.rows| == |Teachers(roster)|
    ensures forall i :: 0 <= i < |tracker.rows| ==>
      tracker.rows[i].teacher == Teachers(roster)[i] && |tracker.rows[i].sheets| == |tracker.dates|
  {
    var teachers := Teachers(roster);
    var dates := RosterDates(roster);
    Tracker(dates, seq(|teachers|, i requires 0 <= i < |teachers| => ExpectedRow(roster, teachers[i], dates)))
  }

  /**
   * The tracker's shape: one column per distinct roster date, ascending,
   * and one row per roster teacher, each teacher once, each row as wide as
   * the date columns.
   */
  lemma TrackerShape(roster: seq<RosterRecord>)
    ensures var tracker := ExpectedTracker(roster);
      && Distinct(tracker.dates) && StrictlySorted(tracker.dates, DateLess)
      && (forall d :: d in tracker.dates <==> exists i :: 0 <= i < |roster| && roster[i].date == d)
      && (forall i, j :: 0 <= i < j < |tracker.rows| ==> tracker.rows[i].teacher != tracker.rows[j].teacher)
      && (set i | 0 <= i < |tracker.rows| :: tracker.rows[i].teacher) == (set i | 0 <= i < |roster| :: roster[i].teacher)
      && (forall i :: 0 <= i < |tracker.rows| ==> |tracker.rows[i].sheets| == |tracker.dates|)
  {
    var teachers := Teachers(roster);
    var rows := ExpectedTracker(roster).rows;
    var named := set r | 0 <= r < |rows| :: rows[r].teacher;
    forall t | t in (set r | 0 <= r < |roster| :: roster[r].teacher) ensures t in named {
      var r :| 0 <= r < |roster| && roster[r].teacher == t;
      assert t in teachers;
      var i :| 0 <= i < |teachers| && teachers[i] == t;
      assert rows[i].teacher == t;
    }
    forall t | t in named ensures t in (set r | 0 <= r < |roster| :: roster[r].teacher) {
      var i :| 0 <= i < |rows| && rows[i].teacher == t;
      assert teachers[i] in teachers;
      var r :| 0 <= r < |roster| && roster[r].teacher == t;
    }
  }

  /** A tracker cell is set exactly when that teacher has a record on that date. */
  lemma TrackerCells(roster: seq<RosterRecord>)
    ensures var tracker := ExpectedTracker(roster);
      forall i, j :: 0 <= i < |tracker.rows| && 0 <= j < |tracker.dates| ==>
        (tracker.rows[i].sheets[j] <==> HasRecord(roster, tracker.rows[i].teacher, tracker.dates[j]))
  {
    var teachers := Teachers(roster);
    var dates := RosterDates(roster);
    var rows := ExpectedTracker(roster).rows;
    forall i, k | 0 <= i < |rows| && 0 <= k < |dates|
      ensures rows[i].sheets[k] <==> HasRecord(roster, rows[i].teacher, dates[k])
    {
      CountPositiveIff(roster, teachers[i], dates[k]);
    }
  }

  /** `TotalSheets` counts the set cells, which is the number of distinct dates the teacher has records on. */
  lemma TrackerTotals(roster: seq<RosterRecord>)
    ensures var tracker := ExpectedTracker(roster);
      forall i :: 0 <= i < |tracker.rows| ==>
        && tracker.rows[i].totalSheets == TrueCount(tracker.rows[i].sheets)
        && tracker.rows[i].totalSheets == |TeacherDateSet(roster, tracker.rows[i].teacher)|
  {
    var teachers := Teachers(roster);
    var rows := ExpectedTracker(roster).rows;
    forall i | 0 <= i < |rows|
      ensures rows[i].totalSheets == |TeacherDateSet(roster, rows[i].teacher)|
    {
      TotalSheetsIsDateCount(roster, teachers[i]);
    }
  }

  /**
   * Builds the tracker: counts per (teacher, date), each date column turned
   * into flags, then the `TotalSheets` column.
   */
  method TrackCoverage(roster: seq<RosterRecord>) returns (tracker: Tracker)
    ensures tracker == ExpectedTracker(roster)
  {
    var teachers := Teachers(roster);
    var dates := RosterDates(roster);
    var counts := CountFrame(roster, teachers, dates);
    var marked := MarkSheets(counts, |dates|);
    var rows := seq(|teachers|, i requires 0 <= i < |teachers| => RowOf(teachers[i], marked[i]));
    forall i | 0 <= i < |teachers| ensures rows[i] == ExpectedRow(roster, teachers[i], dates) {
      var expected := ExpectedRow(roster, teachers[i], dates);
      forall k | 0 <= k < |dates| ensures rows[i].sheets[k] == expected.sheets[k] {
        assert marked[i][k] == Flag(counts[i][k].count > 0);
      }
      assert rows[i].sheets == expected.sheets;
    }
    tracker := Tracker(dates, rows);
  }
}

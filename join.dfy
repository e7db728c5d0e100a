/**
 * The left merge of the roster's (StudentID, Date, Student Name) columns with
 * the pivoted attendance grid on (StudentID, Date).
 */
module Join {
  import opened Wrappers
  import opened Ordering
  import opened Dates
  import opened Roster
  import opened Pivot

  /**
   * One merged row; `periods` is `None` (pandas' NaN in every period column)
   * when the roster row has no pivot row.
   */
  datatype JoinedRow = JoinedRow(studentId: int, date: Date, studentName: string, periods: Option<seq<string>>)

  function RecordKey(r: RosterRecord): Key {
    Key(r.studentId, r.date)
  }

  /** The grid rows with the record's key, in grid order. */
  function Matches(r: RosterRecord, grid: seq<GridRow>): (ms: seq<GridRow>)
    ensures forall g :: g in ms <==> g in grid && RowKey(g) == RecordKey(r)
  {
    if grid == [] then []
    else
      var n := |grid| - 1;
      var rest := Matches(r, grid[..n]);
      assert grid == grid[..n] + [grid[n]];
      if RowKey(grid[n]) == RecordKey(r) then rest + [grid[n]] else rest
  }

  /**
   * The merged rows of one roster row: one per grid row with its key, each
   * carrying that row's periods, or a single row with NaN periods when the
   * grid has none.
   */
  function JoinOne(r: RosterRecord, grid: seq<GridRow>): (js: seq<JoinedRow>)
    ensures |js| >= 1
    ensures forall j :: j in js ==> j.studentId == r.studentId && j.date == r.date && j.studentName == r.studentName
    ensures js[0].periods.None? <==> forall g :: g in grid ==> RowKey(g) != RecordKey(r)
    ensures js[0].periods.None? ==> |js| == 1
    ensures forall j :: j in js && j.periods.Some? ==> exists g :: g in grid && RowKey(g) == RecordKey(r) && g.periods == j.periods.value
  {
    var ms := Matches(r, grid);
    if ms == [] then [JoinedRow(r.studentId, r.date, r.studentName, None)]
    else
      assert ms[0] in grid;
      seq(|ms|, i requires 0 <= i < |ms| => JoinedRow(r.studentId, r.date, r.studentName, Some(ms[i].periods)))
  }

  /** Every merged row takes its student, date and name from some roster row. */
  ghost predicate FromRoster(js: seq<JoinedRow>, roster: seq<RosterRecord>) {
    forall j :: j in js ==> exists i :: 0 <= i < |roster| && j.studentId == roster[i].studentId && j.date == roster[i].date && j.studentName == roster[i].studentName
  }

  /** Every merged row with periods takes them from a grid row with its student and date. */
  ghost predicate PeriodsFromGrid(js: seq<JoinedRow>, grid: seq<GridRow>) {
    forall j :: j in js && j.periods.Some? ==> exists g :: g in grid && RowKey(g) == Key(j.studentId, j.date) && g.periods == j.periods.value
  }

  /**
   * `merge(how='left')`: at least one merged row per roster row, each taking
   * its student, date and name from a roster row and its periods, when
   * present, from a grid row with that student and date.
   */
  function LeftJoin(roster: seq<RosterRecord>, grid: seq<GridRow>): (js: seq<JoinedRow>)
    ensures |js| >= |roster|
    ensures FromRoster(js, roster) && PeriodsFromGrid(js, grid)
  {
    if roster == [] then []
    else
      var n := |roster| - 1;
      var rest := LeftJoin(roster[..n], grid);
      LeftJoinStep(roster, grid, rest);
      rest + JoinOne(roster[n], grid)
  }

  lemma LeftJoinStep(roster: seq<RosterRecord>, grid: seq<GridRow>, rest: seq<JoinedRow>)
    requires roster != []
    requires FromRoster(rest, roster[..|roster| - 1]) && PeriodsFromGrid(rest, grid)
    ensures FromRoster(rest + JoinOne(roster[|roster| - 1], grid), roster)
    ensures PeriodsFromGrid(rest + JoinOne(roster[|roster| - 1], grid), grid)
  {
    var n := |roster| - 1;
    var one := JoinOne(roster[n], grid);
    forall j | j in rest + one
      ensures exists i :: 0 <= i < |roster| && j.studentId == roster[i].studentId && j.date == roster[i].date && j.studentName == roster[i].studentName
    {
      if j in rest {
        var i :| 0 <= i < n && j.studentId == roster[..n][i].studentId && j.date == roster[..n][i].date && j.studentName == roster[..n][i].studentName;
        assert roster[..n][i] == roster[i];
      } else {
        assert j in one;
      }
    }
  }

  /** The grid has at most one row per (student, date). */
  ghost predicate UniqueKeys(grid: seq<GridRow>) {
    forall i, j :: 0 <= i < j < |grid| ==> RowKey(grid[i]) != RowKey(grid[j])
  }

  lemma {:induction false} MatchesAtMostOne(r: RosterRecord, grid: seq<GridRow>)
    requires UniqueKeys(grid)
    ensures |Matches(r, grid)| <= 1
  {
    if grid != [] {
      var n := |grid| - 1;
      MatchesAtMostOne(r, grid[..n]);
      if RowKey(grid[n]) == RecordKey(r) {
        forall g | g in grid[..n] ensures RowKey(g) != RecordKey(r) {
          var i :| 0 <= i < n && grid[..n][i] == g;
          assert grid[i] == g;
        }
        NoneMatch(r, grid[..n]);
      }
    }
  }

  lemma NoneMatch(r: RosterRecord, grid: seq<GridRow>)
    requires forall g :: g in grid ==> RowKey(g) != RecordKey(r)
    ensures Matches(r, grid) == []
  {
  }

  /** The merged row of a roster record when grid keys are unique. */
  function JoinedRowOf(r: RosterRecord, grid: seq<GridRow>): (j: JoinedRow)
    ensures j.studentId == r.studentId && j.date == r.date && j.studentName == r.studentName
    ensures j.periods.None? <==> forall g :: g in grid ==> RowKey(g) != RecordKey(r)
    ensures j.periods.Some? ==> exists g :: g in grid && RowKey(g) == RecordKey(r) && g.periods == j.periods.value
  {
    var ms := Matches(r, grid);
    if ms == [] then JoinedRow(r.studentId, r.date, r.studentName, None)
    else
      assert ms[0] in ms;
      JoinedRow(r.studentId, r.date, r.studentName, Some(ms[0].periods))
  }

  /**
   * With unique grid keys the left join keeps every roster row, in order and
   * with multiplicity, carrying its key and name and the periods of its
   * matching grid row, or NaN when there is none.
   */
  lemma {:induction false} LeftJoinKeepsRoster(roster: seq<RosterRecord>, grid: seq<GridRow>)
    requires UniqueKeys(grid)
    ensures |LeftJoin(roster, grid)| == |roster|
    ensures forall i :: 0 <= i < |roster| ==> LeftJoin(roster, grid)[i] == JoinedRowOf(roster[i], grid)
  {
    if roster != [] {
      var n := |roster| - 1;
      var prefix := LeftJoin(roster[..n], grid);
      LeftJoinKeepsRoster(roster[..n], grid);
      JoinOneSingle(roster[n], grid);
      assert LeftJoin(roster, grid) == prefix + [JoinedRowOf(roster[n], grid)];
      RowsOfAppend(roster, grid, prefix);
    }
  }

  lemma RowsOfAppend(roster: seq<RosterRecord>, grid: seq<GridRow>, prefix: seq<JoinedRow>)
    requires roster != [] && |prefix| == |roster| - 1
    requires forall i :: 0 <= i < |prefix| ==> prefix[i] == JoinedRowOf(roster[..|prefix|][i], grid)
    ensures var js := prefix + [JoinedRowOf(roster[|prefix|], grid)];
      forall i :: 0 <= i < |roster| ==> js[i] == JoinedRowOf(roster[i], grid)
  {
    var n := |prefix|;
    assert forall i :: 0 <= i < n ==> roster[..n][i] == roster[i];
  }


  /** With unique grid keys a roster row contributes exactly one merged row. */
  lemma JoinOneSingle(r: RosterRecord, grid: seq<GridRow>)
    requires UniqueKeys(grid)
    ensures JoinOne(r, grid) == [JoinedRowOf(r, grid)]
  {
    MatchesAtMostOne(r, grid);
  }
}

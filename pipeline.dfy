/**
 * One week's run: normalise the roster files, pivot the attendance log,
 * merge the two, then build the letters and the tracker. File reading and
 * writing are outside the model: the roster rows and the attendance log are
 * parameters, the letters and the tracker are the result.
 */
module Pipeline {
  import opened Wrappers
  import opened Ordering
  import opened Dates
  import opened Roster
  import opened Pivot
  import opened Join
  import opened Letters
  import opened Coverage

  /** Why a run stops: a roster date that does not parse, or a period column the pivot lacks. */
  datatype RunError = RosterFailed(rosterError: RosterError) | PivotFailed(pivotError: PivotError)

  /** What a successful run hands to the PDF and spreadsheet writers. */
  datatype Outputs = Outputs(letters: seq<Block>, tracker: Tracker)

  /**
   * The run stated stage by stage. With no roster file it fails before
   * anything else; a successful run writes letters exactly when the roster
   * has records, and one tracker row per roster teacher.
   */
  function WeekReport(files: seq<seq<RawRow>>, log: seq<LogRow>): (r: Result<Outputs, RunError>)
    ensures files == [] ==> r == Err(RosterFailed(NoRosterFiles))
    ensures r.Ok? ==> Normalise(files).Ok? && AttendanceGrid(log, Normalise(files).value).Ok?
    ensures r.Ok? ==> (r.value.letters == [] <==> Normalise(files).value == [])
    ensures r.Ok? ==> |r.value.tracker.rows| == |Teachers(Normalise(files).value)|
  {
    match Normalise(files)
    case Err(e) => Err(RosterFailed(e))
    case Ok(roster) =>
      match AttendanceGrid(log, roster)
      case Err(e) => Err(PivotFailed(e))
      case Ok(grid) => Ok(Outputs(Document(roster, LeftJoin(roster, grid)), ExpectedTracker(roster)))
  }

  /** The run as the program performs it, loop by loop. */
  method RunWeek(files: seq<seq<RawRow>>, log: seq<LogRow>) returns (r: Result<Outputs, RunError>)
    ensures r == WeekReport(files, log)
  {
    var cands := CollectCandidates(files);
    if |files| == 0 {
      return Err(RosterFailed(NoRosterFiles));
    }
    var kept := DropMissing(cands);
    NormaliseFails(cands, kept);
    var parsed := ParseDates(kept);
    if parsed.Err? {
      return Err(RosterFailed(parsed.error));
    }
    var roster := parsed.value;
    var marks := RosterMarks(log, RosterStudents(roster));
    var entries := PivotGroups(marks);
    var frame := Frame(entries);
    if frame.Err? {
      return Err(PivotFailed(frame.error));
    }
    var joined := LeftJoin(roster, frame.value);
    var flowables := CompileLetters(roster, joined);
    var tracker := TrackCoverage(roster);
    r := Ok(Outputs(flowables, tracker));
  }

  /**
   * The run fails exactly when there is no roster file, or some complete
   * roster row's date does not parse, or, the roster being fine, one of the
   * periods 1..9 occurs in no roster student's attendance row.
   */
  lemma RunFailsIff(files: seq<seq<RawRow>>, log: seq<LogRow>)
    ensures WeekReport(files, log).Err? <==>
      files == []
      || (exists c :: c in Candidates(files) && Complete(c) && ParseDate(c.date.value).None?)
      || (Normalise(files).Ok? &&
          exists j :: 0 <= j < 9 && PeriodUnseen(PivotMarks(log, Normalise(files).value), PERIOD_COLUMNS[j]))
  {
    if Normalise(files).Ok? {
      PivotFailsIffPeriodUnseen(log, Normalise(files).value);
    }
  }

  /**
   * Merging the roster with its own pivot keeps every roster row exactly
   * once, in order, with the periods of its (student, date) pivot row or NaN.
   */
  lemma {:induction false} JoinKeepsRoster(log: seq<LogRow>, roster: seq<RosterRecord>)
    requires AttendanceGrid(log, roster).Ok?
    ensures var grid := AttendanceGrid(log, roster).value;
      && |LeftJoin(roster, grid)| == |roster|
      && forall i :: 0 <= i < |roster| ==> LeftJoin(roster, grid)[i] == JoinedRowOf(roster[i], grid)
  {
    PivotRowPerKey(log, roster);
    LeftJoinKeepsRoster(roster, AttendanceGrid(log, roster).value);
  }

  /** In a successful run every roster teacher is greeted in exactly one letter, and no one else is. */
  lemma SuccessfulRunGreetsEachTeacherOnce(files: seq<seq<RawRow>>, log: seq<LogRow>)
    requires WeekReport(files, log).Ok?
    ensures var roster := Normalise(files).value;
      forall u :: multiset(WeekReport(files, log).value.letters)[Greeting(u)] ==
        if exists i :: 0 <= i < |roster| && roster[i].teacher == u then 1 else 0
  {
    SuccessfulRunOutputs(files, log);
    var roster := Normalise(files).value;
    OneLetterPerTeacher(roster, LeftJoin(roster, AttendanceGrid(log, roster).value));
  }

  /** In a successful run a tracker cell is set exactly where the teacher has a record on that date. */
  lemma SuccessfulRunTracksRecords(files: seq<seq<RawRow>>, log: seq<LogRow>)
    requires WeekReport(files, log).Ok?
    ensures var roster := Normalise(files).value;
      var tracker := WeekReport(files, log).value.tracker;
      forall i, j :: 0 <= i < |tracker.rows| && 0 <= j < |tracker.dates| ==>
        (tracker.rows[i].sheets[j] <==> HasRecord(roster, tracker.rows[i].teacher, tracker.dates[j]))
  {
    SuccessfulRunOutputs(files, log);
    TrackerCells(Normalise(files).value);
  }

  lemma SuccessfulRunOutputs(files: seq<seq<RawRow>>, log: seq<LogRow>)
    requires WeekReport(files, log).Ok?
    ensures Normalise(files).Ok? && AttendanceGrid(log, Normalise(files).value).Ok?
    ensures var roster := Normalise(files).value;
      var grid := AttendanceGrid(log, roster).value;
      WeekReport(files, log).value == Outputs(Document(roster, LeftJoin(roster, grid)), ExpectedTracker(roster))
  {
  }
}

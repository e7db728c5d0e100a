/**
 * Worked instances of the stages on small inputs.
 */
module Scenarios {
  import opened Wrappers
  import opened Dates
  import opened Roster
  import opened Pivot

  /** `09/04/24` is 4 September 2024. */
  lemma ExampleDateParses()
    ensures ParseDate("09/04/24") == Some(Date(2024, 9, 4))
  {
    var d := Date(2024, 9, 4);
    assert Pad2(9) == "09" && Pad2(4) == "04" && Pad2(24) == "24";
    assert FormatDate(d) == "09/04/24";
    ParseFormattedDate(d);
  }

  lemma ExampleCandidates(row: RawRow)
    requires Complete(CandidateOf(row, false)) && Complete(CandidateOf(row, true))
    ensures DropMissing(Candidates([[row]])) == [CandidateOf(row, false), CandidateOf(row, true)]
  {
    var c1 := CandidateOf(row, false);
    var c2 := CandidateOf(row, true);
    assert [[row]][..0] == [];
    assert Candidates([[row]]) == [c1, c2];
    assert [c1, c2][..1] == [c1] && [c1][..0] == [];
  }

  lemma ParsePair(c1: Candidate, c2: Candidate, d1: Date, d2: Date)
    requires Complete(c1) && Complete(c2)
    requires ParseDate(c1.date.value) == Some(d1) && ParseDate(c2.date.value) == Some(d2)
    ensures ParseDates([c1, c2]) == Ok([
      RosterRecord(c1.studentId.value, c1.studentName.value, c1.teacher.value, d1),
      RosterRecord(c2.studentId.value, c2.studentName.value, c2.teacher.value, d2)])
  {
    assert [c1, c2][1..] == [c2] && [c2][1..] == [];
    var r2 := RosterRecord(c2.studentId.value, c2.studentName.value, c2.teacher.value, d2);
    assert ParseDates([c2]) == Ok([r2] + []);
    assert [r2] + [] == [r2];
    var r1 := RosterRecord(c1.studentId.value, c1.studentName.value, c1.teacher.value, d1);
    assert [c1, c2][0] == c1;
    assert ParseDates([c1, c2]) == Ok([r1] + [r2]);
    assert [r1] + [r2] == [r1, r2];
  }

  /** One roster row naming two teachers becomes two records, the first teacher's first. */
  lemma TwoTeacherRowSplits()
    ensures Normalise([[RawRow(Some(101), Some("A Lee"), Some("Smith"), Some("Jones"), Some("09/04/24"))]])
         == Ok([RosterRecord(101, "A Lee", "Smith", Date(2024, 9, 4)), RosterRecord(101, "A Lee", "Jones", Date(2024, 9, 4))])
  {
    var row := RawRow(Some(101), Some("A Lee"), Some("Smith"), Some("Jones"), Some("09/04/24"));
    ExampleDateParses();
    ExampleCandidates(row);
    ParsePair(CandidateOf(row, false), CandidateOf(row, true), Date(2024, 9, 4), Date(2024, 9, 4));
  }

  /** A one-row log of a roster student reaches the pivot as that row's single mark. */
  lemma SingleRowMarks(row: LogRow, roster: seq<RosterRecord>)
    requires row.studentId in RosterStudents(roster)
    ensures PivotMarks([row], roster) == [MarkOf(row)]
  {
    assert [row][..0] == [];
  }

  /**
   * A log whose only roster-student row is period `P3` leaves columns 1, 2
   * and 4..9 absent, so the column selection fails instead of producing a
   * row with eight empty periods.
   */
  lemma SinglePeriodLogFails()
    ensures var roster := [RosterRecord(101, "A Lee", "Smith", Date(2024, 9, 4))];
      var log := [LogRow(101, Date(2024, 9, 4), "P3", "Absent")];
      var grid := AttendanceGrid(log, roster);
      && grid.Err?
      && forall c :: c in grid.error.columns <==> c in PERIOD_COLUMNS && c != "3"
  {
    var roster := [RosterRecord(101, "A Lee", "Smith", Date(2024, 9, 4))];
    var row := LogRow(101, Date(2024, 9, 4), "P3", "Absent");
    assert roster[0].studentId == 101;
    SingleRowMarks(row, roster);
    var marks := PivotMarks([row], roster);
    assert marks[0].pd == "3";
    assert forall c :: PeriodUnseen(marks, c) <==> c != "3";
    assert PERIOD_COLUMNS[0] == "1";
    PivotFailsIffPeriodUnseen([row], roster);
  }
}

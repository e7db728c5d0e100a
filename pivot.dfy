/**
 * The attendance pivot: the period code loses its one-character prefix, the
 * log is restricted to roster students, grouped by (student, date) in
 * ascending key order, and each group's (period, attendance) pairs are folded
 * into a map that is projected onto the fixed columns `1`..`9`.
 */
module Pivot {
  import opened Wrappers
  import opened Ordering
  import opened Dates
  import opened Roster

  /** One period observation of the attendance log (its date already parsed). */
  datatype LogRow = LogRow(studentId: int, date: Date, period: string, attendance: string)

  /** A log row with its bare period key (`Pd`). */
  datatype Mark = Mark(studentId: int, date: Date, pd: string, attendance: string)

  /** A `(StudentID, Date)` group key. */
  datatype Key = Key(studentId: int, date: Date)

  /** One dictionary of the pivot loop: the group's key and its period -> attendance map. */
  datatype GroupEntry = GroupEntry(studentId: int, date: Date, periods: map<string, string>)

  /** One pivoted row: attendance for periods 1..9, `""` where none was recorded. */
  datatype GridRow = GridRow(studentId: int, date: Date, periods: seq<string>)

  /** Period columns that no group has, so the column selection fails. */
  datatype PivotError = MissingColumns(columns: seq<string>)

  const PERIOD_COLUMNS: seq<string> := ["1", "2", "3", "4", "5", "6", "7", "8", "9"]

  /** `x[1:]`: the period code without its first character. */
  function StripPrefix(code: string): (pd: string)
    ensures code != [] ==> [code[0]] + pd == code
    ensures code == [] ==> pd == []
  {
    if code == [] then [] else code[1..]
  }

  function MarkOf(row: LogRow): Mark {
    Mark(row.studentId, row.date, StripPrefix(row.period), row.attendance)
  }

  /** The students of the normalised roster (`df['StudentID'].unique()`). */
  function RosterStudents(roster: seq<RosterRecord>): (ids: set<int>)
    ensures forall id :: id in ids <==> exists i :: 0 <= i < |roster| && roster[i].studentId == id
  {
    set i | 0 <= i < |roster| :: roster[i].studentId
  }

  /** The marks of the log rows whose student is on the roster, in log order. */
  function RosterMarks(log: seq<LogRow>, students: set<int>): (marks: seq<Mark>)
    ensures |marks| <= |log|
    ensures forall m :: m in marks ==> m.studentId in students
    ensures forall m :: m in marks <==> exists i :: 0 <= i < |log| && log[i].studentId in students && MarkOf(log[i]) == m
  {
    if log == [] then []
    else
      var n := |log| - 1;
      var rest := RosterMarks(log[..n], students);
      assert forall i :: 0 <= i < n ==> log[..n][i] == log[i];
      if log[n].studentId in students then rest + [MarkOf(log[n])] else rest
  }

  /** The positions of the log rows whose student is on the roster, ascending. */
  ghost function KeptRows(log: seq<LogRow>, students: set<int>): seq<int> {
    if log == [] then []
    else
      var n := |log| - 1;
      KeptRows(log[..n], students) + if log[n].studentId in students then [n] else []
  }

  /**
   * `marks` is the log filtered to `students` at the positions `idx`: the
   * positions strictly increase, mark `a` is the mark of the log row at
   * position `a`, and every roster student's row is at one of them.
   */
  ghost predicate KeptPositions(log: seq<LogRow>, students: set<int>, idx: seq<int>, marks: seq<Mark>) {
    && |idx| == |marks|
    && (forall a, b :: 0 <= a < b < |idx| ==> idx[a] < idx[b])
    && (forall a :: 0 <= a < |idx| ==> 0 <= idx[a] < |log| && log[idx[a]].studentId in students && marks[a] == MarkOf(log[idx[a]]))
    && (forall i :: 0 <= i < |log| && log[i].studentId in students ==> i in idx)
  }

  lemma KeptPositionsStep(log: seq<LogRow>, students: set<int>, idx: seq<int>, marks: seq<Mark>)
    requires log != [] && KeptPositions(log[..|log| - 1], students, idx, marks)
    ensures var n := |log| - 1;
      KeptPositions(log, students, idx + (if log[n].studentId in students then [n] else []),
        marks + (if log[n].studentId in students then [MarkOf(log[n])] else []))
  {
    var n := |log| - 1;
    assert forall i :: 0 <= i < n ==> log[..n][i] == log[i];
  }

  /** `RosterMarks` keeps log order: it is the log filtered to the roster students. */
  lemma {:induction false} RosterMarksInOrder(log: seq<LogRow>, students: set<int>)
    ensures KeptPositions(log, students, KeptRows(log, students), RosterMarks(log, students))
  {
    if log != [] {
      var n := |log| - 1;
      RosterMarksInOrder(log[..n], students);
      KeptPositionsStep(log, students, KeptRows(log[..n], students), RosterMarks(log[..n], students));
    }
  }

  /** Ascending student, then ascending date. */
  predicate KeyLess(a: Key, b: Key) {
    a.studentId < b.studentId || (a.studentId == b.studentId && DateLess(a.date, b.date))
  }

  lemma KeyLessIsStrictTotalOrder()
    ensures StrictTotalOrder(KeyLess)
  {
  }

  function KeyOf(m: Mark): Key {
    Key(m.studentId, m.date)
  }

  /** The groupby keys, ascending, each once. */
  function GroupKeys(marks: seq<Mark>): (ks: seq<Key>)
    ensures StrictlySorted(ks, KeyLess) && Distinct(ks)
    ensures forall k :: k in ks <==> exists i :: 0 <= i < |marks| && KeyOf(marks[i]) == k
  {
    KeyLessIsStrictTotalOrder();
    var keys := seq(|marks|, i requires 0 <= i < |marks| => KeyOf(marks[i]));
    assert forall i :: 0 <= i < |marks| ==> keys[i] == KeyOf(marks[i]);
    SortedKeys(keys, KeyLess)
  }

  /** The marks of one group, in log order. */
  function GroupOf(marks: seq<Mark>, k: Key): (g: seq<Mark>)
    ensures forall m :: m in g <==> m in marks && KeyOf(m) == k
  {
    if marks == [] then []
    else
      var n := |marks| - 1;
      var rest := GroupOf(marks[..n], k);
      assert marks == marks[..n] + [marks[n]];
      if KeyOf(marks[n]) == k then rest + [marks[n]] else rest
  }

  /** The positions of the marks with key `k`, ascending. */
  ghost function GroupPositions(marks: seq<Mark>, k: Key): seq<int> {
    if marks == [] then []
    else
      var n := |marks| - 1;
      GroupPositions(marks[..n], k) + if KeyOf(marks[n]) == k then [n] else []
  }

  /**
   * `g` is the subsequence of `marks` at the positions `idx`: the positions
   * strictly increase, each holds a mark with key `k`, and every mark with
   * key `k` is at one of them.
   */
  ghost predicate KeyPositions(marks: seq<Mark>, k: Key, idx: seq<int>, g: seq<Mark>) {
    && |idx| == |g|
    && (forall a, b :: 0 <= a < b < |idx| ==> idx[a] < idx[b])
    && (forall a :: 0 <= a < |idx| ==> 0 <= idx[a] < |marks| && KeyOf(marks[idx[a]]) == k && g[a] == marks[idx[a]])
    && (forall i :: 0 <= i < |marks| && KeyOf(marks[i]) == k ==> i in idx)
  }

  lemma KeyPositionsStep(marks: seq<Mark>, k: Key, idx: seq<int>, g: seq<Mark>)
    requires marks != [] && KeyPositions(marks[..|marks| - 1], k, idx, g)
    ensures var n := |marks| - 1;
      KeyPositions(marks, k, idx + (if KeyOf(marks[n]) == k then [n] else []), g + (if KeyOf(marks[n]) == k then [marks[n]] else []))
  {
    var n := |marks| - 1;
    assert forall i :: 0 <= i < n ==> marks[..n][i] == marks[i];
  }

  /** `GroupOf` keeps log order: it is the subsequence of the marks with key `k`. */
  lemma {:induction false} GroupOfInOrder(marks: seq<Mark>, k: Key)
    ensures KeyPositions(marks, k, GroupPositions(marks, k), GroupOf(marks, k))
  {
    if marks != [] {
      var n := |marks| - 1;
      GroupOfInOrder(marks[..n], k);
      KeyPositionsStep(marks, k, GroupPositions(marks[..n], k), GroupOf(marks[..n], k));
    }
  }

  /** The group's period -> attendance dictionary; a later mark for the same period replaces an earlier one. */
  function PeriodMap(group: seq<Mark>): (m: map<string, string>)
    ensures forall p :: p in m <==> exists i :: 0 <= i < |group| && group[i].pd == p
  {
    if group == [] then map[]
    else
      var n := |group| - 1;
      var rest := PeriodMap(group[..n]);
      assert forall i :: 0 <= i < n ==> group[..n][i] == group[i];
      rest[group[n].pd := group[n].attendance]
  }

  /** Last one wins: the value kept for a period is the attendance of its last mark. */
  lemma {:induction false} PeriodMapLastWins(group: seq<Mark>, i: nat)
    requires i < |group|
    requires forall j :: i < j < |group| ==> group[j].pd != group[i].pd
    ensures group[i].pd in PeriodMap(group) && PeriodMap(group)[group[i].pd] == group[i].attendance
  {
    var n := |group| - 1;
    var init := group[..n];
    assert PeriodMap(group) == PeriodMap(init)[group[n].pd := group[n].attendance];
    if i < n {
      assert group[n].pd != group[i].pd;
      assert forall j :: i < j < n ==> init[j] == group[j];
      PeriodMapLastWins(init, i);
    }
  }

  function EntryFor(marks: seq<Mark>, k: Key): GroupEntry {
    GroupEntry(k.studentId, k.date, PeriodMap(GroupOf(marks, k)))
  }

  /** The list of group dictionaries, one per key in key order. */
  function Entries(marks: seq<Mark>): seq<GroupEntry> {
    var ks := GroupKeys(marks);
    seq(|ks|, i requires 0 <= i < |ks| => EntryFor(marks, ks[i]))
  }

  /** The pivot loop: one dictionary per (student, date) group, appended in key order. */
  method PivotGroups(marks: seq<Mark>) returns (entries: seq<GroupEntry>)
    ensures entries == Entries(marks)
  {
    var keys := GroupKeys(marks);
    entries := [];
    var i := 0;
    while i < |keys|
      invariant 0 <= i <= |keys|
      invariant |entries| == i
      invariant forall k :: 0 <= k < i ==> entries[k] == EntryFor(marks, keys[k])
    {
      var group := GroupOf(marks, keys[i]);
      var periods := PeriodMap(group);
      entries := entries + [GroupEntry(keys[i].studentId, keys[i].date, periods)];
      i := i + 1;
    }
  }

  /** Every key that occurs in some dictionary: the frame's columns. */
  function ColumnsSeen(entries: seq<GroupEntry>): (cols: set<string>)
    ensures forall p :: p in cols <==> exists i :: 0 <= i < |entries| && p in entries[i].periods
  {
    if entries == [] then {}
    else
      var n := |entries| - 1;
      assert forall i :: 0 <= i < n ==> entries[..n][i] == entries[i];
      ColumnsSeen(entries[..n]) + entries[n].periods.Keys
  }

  function MissingFrom(columns: seq<string>, seen: set<string>): (missing: seq<string>)
    ensures forall c :: c in missing <==> c in columns && c !in seen
  {
    if columns == [] then []
    else
      (if columns[0] in seen then [] else [columns[0]]) + MissingFrom(columns[1..], seen)
  }

  /** One dictionary as a frame row: column `j` holds the dictionary's value for period `j + 1`, or `""`. */
  function GridRowOf(e: GroupEntry): (row: GridRow)
    ensures row.studentId == e.studentId && row.date == e.date && |row.periods| == 9
    ensures forall j :: 0 <= j < 9 && PERIOD_COLUMNS[j] in e.periods ==> row.periods[j] == e.periods[PERIOD_COLUMNS[j]]
    ensures forall j :: 0 <= j < 9 && PERIOD_COLUMNS[j] !in e.periods ==> row.periods[j] == ""
  {
    GridRow(e.studentId, e.date,
      seq(9, j requires 0 <= j < 9 => if PERIOD_COLUMNS[j] in e.periods then e.periods[PERIOD_COLUMNS[j]] else ""))
  }

  /**
   * `DataFrame(...).fillna('')[parsed_cols]`: fails, naming the absent
   * columns, exactly when some period column occurs in no dictionary, and
   * otherwise has one row per dictionary, in order.
   */
  function Frame(entries: seq<GroupEntry>): (r: Result<seq<GridRow>, PivotError>)
    ensures r.Err? <==> exists j :: 0 <= j < 9 && PERIOD_COLUMNS[j] !in ColumnsSeen(entries)
    ensures r.Err? ==> forall c :: c in r.error.columns <==> c in PERIOD_COLUMNS && c !in ColumnsSeen(entries)
    ensures r.Ok? ==> |r.value| == |entries| && forall i :: 0 <= i < |entries| ==> r.value[i] == GridRowOf(entries[i])
  {
    var missing := MissingFrom(PERIOD_COLUMNS, ColumnsSeen(entries));
    if missing != [] then
      assert missing[0] in PERIOD_COLUMNS;
      Err(MissingColumns(missing))
    else Ok(seq(|entries|, i requires 0 <= i < |entries| => GridRowOf(entries[i])))
  }

  /** The marks that reach the pivot. */
  function PivotMarks(log: seq<LogRow>, roster: seq<RosterRecord>): seq<Mark> {
    RosterMarks(log, RosterStudents(roster))
  }

  /**
   * The whole pivot stage. On success every row has the nine periods and
   * the key of some roster student's log row, and the keys ascend.
   */
  function AttendanceGrid(log: seq<LogRow>, roster: seq<RosterRecord>): (r: Result<seq<GridRow>, PivotError>)
    ensures r.Ok? ==> forall i :: 0 <= i < |r.value| ==> |r.value[i].periods| == 9 && RowKey(r.value[i]) in LogKeys(log, RosterStudents(roster))
    ensures r.Ok? ==> forall i, j :: 0 <= i < j < |r.value| ==> KeyLess(RowKey(r.value[i]), RowKey(r.value[j]))
  {
    var marks := PivotMarks(log, roster);
    EntriesAt(marks);
    GroupKeysAreLogKeys(log, RosterStudents(roster));
    Frame(Entries(marks))
  }

  lemma EntriesAt(marks: seq<Mark>)
    ensures |Entries(marks)| == |GroupKeys(marks)|
    ensures forall i :: 0 <= i < |GroupKeys(marks)| ==> Entries(marks)[i] == EntryFor(marks, GroupKeys(marks)[i])
  {
  }

  /** A period key occurs in some group dictionary exactly when some mark has it. */
  lemma ColumnsSeenArePeriods(marks: seq<Mark>)
    ensures forall p :: p in ColumnsSeen(Entries(marks)) <==> exists i :: 0 <= i < |marks| && marks[i].pd == p
  {
    forall p | p in ColumnsSeen(Entries(marks)) ensures exists i :: 0 <= i < |marks| && marks[i].pd == p {
      PeriodSeenHasMark(marks, p);
    }
    forall i | 0 <= i < |marks| ensures marks[i].pd in ColumnsSeen(Entries(marks)) {
      MarkPeriodSeen(marks, i);
    }
  }

  lemma PeriodSeenHasMark(marks: seq<Mark>, p: string)
    requires p in ColumnsSeen(Entries(marks))
    ensures exists i :: 0 <= i < |marks| && marks[i].pd == p
  {
    var es := Entries(marks);
    EntriesAt(marks);
    var e :| 0 <= e < |es| && p in es[e].periods;
    var g := GroupOf(marks, GroupKeys(marks)[e]);
    var j :| 0 <= j < |g| && g[j].pd == p;
    assert g[j] in marks;
  }

  lemma MarkPeriodSeen(marks: seq<Mark>, i: int)
    requires 0 <= i < |marks|
    ensures marks[i].pd in ColumnsSeen(Entries(marks))
  {
    var es := Entries(marks);
    var ks := GroupKeys(marks);
    EntriesAt(marks);
    var k := KeyOf(marks[i]);
    assert k in ks;
    var e :| 0 <= e < |ks| && ks[e] == k;
    var g := GroupOf(marks, k);
    assert marks[i] in g;
    var j :| 0 <= j < |g| && g[j] == marks[i];
    assert marks[i].pd in es[e].periods;
  }




  /** No mark of `marks` has period key `p`. */
  ghost predicate PeriodUnseen(marks: seq<Mark>, p: string) {
    forall i :: 0 <= i < |marks| ==> marks[i].pd != p
  }

  /**
   * The pivot fails exactly when one of the periods 1..9 occurs in no roster
   * student's log row, and then names exactly those periods.
   */
  lemma PivotFailsIffPeriodUnseen(log: seq<LogRow>, roster: seq<RosterRecord>)
    ensures AttendanceGrid(log, roster).Err? <==> exists j :: 0 <= j < 9 && PeriodUnseen(PivotMarks(log, roster), PERIOD_COLUMNS[j])
    ensures AttendanceGrid(log, roster).Err? ==>
      forall c :: c in AttendanceGrid(log, roster).error.columns <==> c in PERIOD_COLUMNS && PeriodUnseen(PivotMarks(log, roster), c)
  {
    var marks := PivotMarks(log, roster);
    var seen := ColumnsSeen(Entries(marks));
    ColumnsSeenArePeriods(marks);
    assert forall c :: c in seen <==> !PeriodUnseen(marks, c);
    var missing := MissingFrom(PERIOD_COLUMNS, seen);
    assert AttendanceGrid(log, roster) == Frame(Entries(marks));
    if missing != [] {
      assert missing[0] in PERIOD_COLUMNS;
    }
  }

  function RowKey(row: GridRow): Key {
    Key(row.studentId, row.date)
  }

  /** The (student, date) pairs of the log rows of roster students. */
  ghost function LogKeys(log: seq<LogRow>, students: set<int>): set<Key> {
    set i | 0 <= i < |log| && log[i].studentId in students :: Key(log[i].studentId, log[i].date)
  }

  lemma GroupKeysAreLogKeys(log: seq<LogRow>, students: set<int>)
    ensures forall k :: k in GroupKeys(RosterMarks(log, students)) <==> k in LogKeys(log, students)
  {
    var marks := RosterMarks(log, students);
    forall k | k in LogKeys(log, students) ensures k in GroupKeys(marks) {
      var i :| 0 <= i < |log| && log[i].studentId in students && Key(log[i].studentId, log[i].date) == k;
      assert MarkOf(log[i]) in marks;
      var m :| 0 <= m < |marks| && marks[m] == MarkOf(log[i]);
      assert KeyOf(marks[m]) == k;
    }
    forall k | k in GroupKeys(marks) ensures k in LogKeys(log, students) {
      var m :| 0 <= m < |marks| && KeyOf(marks[m]) == k;
      assert marks[m] in marks;
    }
  }

  /**
   * On success the pivot has exactly one row per (student, date) among the
   * roster students' log rows, in ascending key order, each with nine periods.
   */
  lemma PivotRowPerKey(log: seq<LogRow>, roster: seq<RosterRecord>)
    requires AttendanceGrid(log, roster).Ok?
    ensures var rows := AttendanceGrid(log, roster).value;
      && (forall i :: 0 <= i < |rows| ==> |rows[i].periods| == 9)
      && (forall i, j :: 0 <= i < j < |rows| ==> KeyLess(RowKey(rows[i]), RowKey(rows[j])))
      && (forall i, j :: 0 <= i < j < |rows| ==> RowKey(rows[i]) != RowKey(rows[j]))
      && (set i | 0 <= i < |rows| :: RowKey(rows[i])) == LogKeys(log, RosterStudents(roster))
  {
    var marks := PivotMarks(log, roster);
    var ks := GroupKeys(marks);
    var rows := AttendanceGrid(log, roster).value;
    PivotRowKeys(marks);
    GroupKeysAreLogKeys(log, RosterStudents(roster));
    RowKeysOf(rows, ks, LogKeys(log, RosterStudents(roster)));
  }

  lemma RowKeysOf(rows: seq<GridRow>, ks: seq<Key>, keys: set<Key>)
    requires |rows| == |ks| && Distinct(ks)
    requires forall i :: 0 <= i < |rows| ==> RowKey(rows[i]) == ks[i]
    requires forall k :: k in ks <==> k in keys
    ensures forall i, j :: 0 <= i < j < |rows| ==> RowKey(rows[i]) != RowKey(rows[j])
    ensures (set i | 0 <= i < |rows| :: RowKey(rows[i])) == keys
  {
    var rowKeys := set i | 0 <= i < |rows| :: RowKey(rows[i]);
    forall k | k in keys ensures k in rowKeys {
      var i :| 0 <= i < |ks| && ks[i] == k;
      assert RowKey(rows[i]) == k;
    }
  }

  /** The pivot's rows follow the group keys one to one. */
  lemma PivotRowKeys(marks: seq<Mark>)
    requires Frame(Entries(marks)).Ok?
    ensures var rows := Frame(Entries(marks)).value;
      && |rows| == |GroupKeys(marks)|
      && forall i :: 0 <= i < |rows| ==> RowKey(rows[i]) == GroupKeys(marks)[i] && |rows[i].periods| == 9
  {
    EntriesAt(marks);
  }

  /** Log row `row` is a roster student's mark for key `k` and bare period `p`. */
  ghost predicate Hits(row: LogRow, students: set<int>, k: Key, p: string) {
    row.studentId in students && Key(row.studentId, row.date) == k && StripPrefix(row.period) == p
  }

  /** Log row `i` is the last row of `log` that hits (`k`, `p`). */
  ghost predicate LastHit(log: seq<LogRow>, students: set<int>, k: Key, p: string, i: int) {
    && 0 <= i < |log| && Hits(log[i], students, k, p)
    && forall l :: i < l < |log| ==> !Hits(log[l], students, k, p)
  }

  lemma GroupOfSnoc(marks: seq<Mark>, m: Mark, k: Key)
    ensures GroupOf(marks + [m], k) == GroupOf(marks, k) + (if KeyOf(m) == k then [m] else [])
  {
    assert (marks + [m])[..|marks|] == marks;
  }

  lemma PeriodMapSnoc(group: seq<Mark>, m: Mark)
    ensures PeriodMap(group + [m]) == PeriodMap(group)[m.pd := m.attendance]
  {
    assert (group + [m])[..|group|] == group;
  }

  /** A group's dictionary as a function of the log it came from. */
  ghost function LogPeriods(log: seq<LogRow>, students: set<int>, k: Key): map<string, string> {
    PeriodMap(GroupOf(RosterMarks(log, students), k))
  }

  /** The group dictionary for `k` after one more log row, seen at period `p`. */
  lemma LogPeriodMapStep(log: seq<LogRow>, students: set<int>, k: Key, p: string)
    requires log != []
    ensures var n := |log| - 1;
      var m := LogPeriods(log, students, k);
      var m0 := LogPeriods(log[..n], students, k);
      && (Hits(log[n], students, k, p) ==> p in m && m[p] == log[n].attendance)
      && (!Hits(log[n], students, k, p) ==> (p in m <==> p in m0) && (p in m ==> m[p] == m0[p]))
  {
    var n := |log| - 1;
    var before := RosterMarks(log[..n], students);
    var row := log[n];
    if row.studentId in students {
      assert RosterMarks(log, students) == before + [MarkOf(row)];
      GroupOfSnoc(before, MarkOf(row), k);
      if KeyOf(MarkOf(row)) == k {
        PeriodMapSnoc(GroupOf(before, k), MarkOf(row));
      }
    }
  }

  /** No roster-student log row with key `k` and period `p`: the dictionary has no `p`. */
  lemma {:induction false} LogPeriodsAbsent(log: seq<LogRow>, students: set<int>, k: Key, p: string)
    requires forall i :: 0 <= i < |log| ==> !Hits(log[i], students, k, p)
    ensures p !in LogPeriods(log, students, k)
  {
    if log != [] {
      var n := |log| - 1;
      var init := log[..n];
      forall i | 0 <= i < n ensures !Hits(init[i], students, k, p) {
        assert init[i] == log[i];
      }
      LogPeriodsAbsent(init, students, k, p);
      LogPeriodMapStep(log, students, k, p);
    }
  }

  /** The dictionary holds, for `p`, the attendance of the last log row with key `k` and period `p`. */
  lemma {:induction false} LogPeriodsLast(log: seq<LogRow>, students: set<int>, k: Key, p: string, i: int)
    requires LastHit(log, students, k, p, i)
    ensures p in LogPeriods(log, students, k) && LogPeriods(log, students, k)[p] == log[i].attendance
  {
    var n := |log| - 1;
    LogPeriodMapStep(log, students, k, p);
    if i < n {
      var init := log[..n];
      assert !Hits(log[n], students, k, p);
      LastHitInPrefix(log, students, k, p, i);
      LogPeriodsLast(init, students, k, p, i);
    }
  }

  lemma LastHitInPrefix(log: seq<LogRow>, students: set<int>, k: Key, p: string, i: int)
    requires LastHit(log, students, k, p, i) && i < |log| - 1
    ensures LastHit(log[..|log| - 1], students, k, p, i) && log[..|log| - 1][i] == log[i]
  {
    var init := log[..|log| - 1];
    forall l | i < l < |init| ensures !Hits(init[l], students, k, p) {
      assert init[l] == log[l];
    }
  }


  /**
   * A cell holds the attendance of the last log row, in log order, with the
   * row's student and date and that period, and `""` when there is no such
   * row.
   */
  lemma PivotCell(log: seq<LogRow>, roster: seq<RosterRecord>, r: nat, j: nat)
    requires AttendanceGrid(log, roster).Ok? && r < |AttendanceGrid(log, roster).value| && j < 9
    ensures var row := AttendanceGrid(log, roster).value[r];
      var students := RosterStudents(roster);
      && |row.periods| == 9
      && ((forall i :: 0 <= i < |log| ==> !Hits(log[i], students, RowKey(row), PERIOD_COLUMNS[j])) ==> row.periods[j] == "")
      && (forall i :: LastHit(log, students, RowKey(row), PERIOD_COLUMNS[j], i) ==> row.periods[j] == log[i].attendance)
  {
    var marks := PivotMarks(log, roster);
    var ks := GroupKeys(marks);
    var es := Entries(marks);
    EntriesAt(marks);
    assert AttendanceGrid(log, roster) == Frame(es);
    var row := AttendanceGrid(log, roster).value[r];
    assert row == GridRowOf(EntryFor(marks, ks[r]));
    assert RowKey(row) == ks[r];
    var students, p := RosterStudents(roster), PERIOD_COLUMNS[j];
    assert row.periods[j] == if p in LogPeriods(log, students, ks[r]) then LogPeriods(log, students, ks[r])[p] else "";
    if forall i :: 0 <= i < |log| ==> !Hits(log[i], students, ks[r], p) {
      LogPeriodsAbsent(log, students, ks[r], p);
    }
    forall i | LastHit(log, students, ks[r], p, i) ensures row.periods[j] == log[i].attendance {
      LogPeriodsLast(log, students, ks[r], p, i);
    }
  }
}

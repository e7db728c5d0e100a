/**
 * Letter assembly: one letter per teacher in ascending name order, and in it
 * one attendance table per date in ascending order, listing the
 * de-duplicated merged rows of that teacher's students on that date.
 */
module Letters {
  import opened Wrappers
  import opened Ordering
  import opened Dates
  import opened Roster
  import opened Pivot
  import opened Join

  /** A table cell: text, or a NaN period of a student without a pivot row. */
  datatype Cell = Text(text: string) | Nan

  /** The document blocks handed to the renderer; static text is abstract. */
  datatype Block =
    | Letterhead                // the four address paragraphs
    | Greeting(teacher: string) // "Dear <teacher>,"
    | Directions
    | Intro
    | Spacer
    | DateHeading(date: Date)
    | Table(rows: seq<seq<Cell>>)
    | Closing                   // a spacer and the three signature paragraphs
    | PageBreak

  /** The header row: the selected column names. */
  const HEADER: seq<Cell> :=
    [Text("Student Name"), Text("1"), Text("2"), Text("3"), Text("4"), Text("5"), Text("6"), Text("7"), Text("8"), Text("9")]

  /** `drop_duplicates()`: the first occurrence of each row, in order. */
  function DropDuplicates(s: seq<JoinedRow>): (r: seq<JoinedRow>)
    ensures Distinct(r)
    ensures forall x :: x in r <==> x in s
  {
    if s == [] then []
    else
      var n := |s| - 1;
      var rest := DropDuplicates(s[..n]);
      assert s == s[..n] + [s[n]];
      if s[n] in s[..n] then rest else rest + [s[n]]
  }

  /** Dropping duplicates changes nothing in a duplicate-free sequence, so it is idempotent. */
  lemma {:induction false} DropDuplicatesOfDistinct(s: seq<JoinedRow>)
    requires Distinct(s)
    ensures DropDuplicates(s) == s
  {
    if s != [] {
      var n := |s| - 1;
      DropDuplicatesOfDistinct(s[..n]);
      assert s == s[..n] + [s[n]];
    }
  }

  /** The students a group of roster records has on date `d` (`students_lst`). */
  function StudentsOn(records: seq<RosterRecord>, d: Date): (ids: set<int>)
    ensures forall id :: id in ids <==> exists i :: 0 <= i < |records| && records[i].date == d && records[i].studentId == id
  {
    set i | 0 <= i < |records| && records[i].date == d :: records[i].studentId
  }

  /** The merged rows of date `d` whose student is in `ids`, in merged order. */
  function Selected(joined: seq<JoinedRow>, d: Date, ids: set<int>): (rows: seq<JoinedRow>)
    ensures forall j :: j in rows <==> j in joined && j.date == d && j.studentId in ids
  {
    if joined == [] then []
    else
      var n := |joined| - 1;
      var rest := Selected(joined[..n], d, ids);
      assert joined == joined[..n] + [joined[n]];
      if joined[n].date == d && joined[n].studentId in ids then rest + [joined[n]] else rest
  }

  /** Roster record `r` enrols student `id` with teacher `t` on date `d`. */
  ghost predicate Enrolled(roster: seq<RosterRecord>, t: string, d: Date, id: int) {
    exists i :: 0 <= i < |roster| && roster[i].teacher == t && roster[i].date == d && roster[i].studentId == id
  }

  /**
   * The body of the (teacher, date) table: no row twice, and exactly the
   * merged rows of that date whose student the teacher has that date.
   */
  function ConfirmationRows(roster: seq<RosterRecord>, joined: seq<JoinedRow>, t: string, d: Date): (rows: seq<JoinedRow>)
    ensures Distinct(rows)
    ensures forall j :: j in rows <==> j in joined && j.date == d && Enrolled(roster, t, d, j.studentId)
  {
    var records := RecordsOf(roster, t);
    var ids := StudentsOn(records, d);
    assert forall id :: id in ids <==> Enrolled(roster, t, d, id) by {
      forall id | Enrolled(roster, t, d, id) ensures id in ids {
        var i :| 0 <= i < |roster| && roster[i].teacher == t && roster[i].date == d && roster[i].studentId == id;
        assert roster[i] in records;
      }
      forall id | id in ids ensures Enrolled(roster, t, d, id) {
        var i :| 0 <= i < |records| && records[i].date == d && records[i].studentId == id;
        assert records[i] in roster;
      }
    }
    DropDuplicates(Selected(joined, d, ids))
  }

  /** The cells of one body row: the student's name, then the nine periods. */
  function RowCells(j: JoinedRow): (cells: seq<Cell>)
    ensures |cells| >= 1 && cells[0] == Text(j.studentName)
    ensures j.periods.None? ==> cells[1..] == seq(9, k => Nan)
    ensures j.periods.Some? ==>
              && |cells| == 1 + |j.periods.value|
              && forall k :: 0 <= k < |j.periods.value| ==> cells[k + 1] == Text(j.periods.value[k])
  {
    match j.periods
    case None => [Text(j.studentName)] + seq(9, k => Nan)
    case Some(ps) => [Text(j.studentName)] + seq(|ps|, k requires 0 <= k < |ps| => Text(ps[k]))
  }

  /** The header row followed by one row per body row. */
  function TableOf(rows: seq<JoinedRow>): (table: seq<seq<Cell>>)
    ensures |table| == |rows| + 1 && table[0] == HEADER
    ensures forall i :: 0 <= i < |rows| ==> table[i + 1] == RowCells(rows[i])
  {
    [HEADER] + seq(|rows|, i requires 0 <= i < |rows| => RowCells(rows[i]))
  }

  /**
   * One date's heading, table and spacer; the table is the header row
   * followed by one row per confirmation row of `t` on `d`, in order.
   */
  function DateSection(roster: seq<RosterRecord>, joined: seq<JoinedRow>, t: string, d: Date): (s: seq<Block>)
    ensures |s| == 3 && s[0] == DateHeading(d) && s[2] == Spacer
    ensures var rows := ConfirmationRows(roster, joined, t, d);
      && s[1].Table? && |s[1].rows| == |rows| + 1 && s[1].rows[0] == HEADER
      && (forall i :: 0 <= i < |rows| ==> s[1].rows[i + 1] == RowCells(rows[i]))
  {
    [DateHeading(d), Table(TableOf(ConfirmationRows(roster, joined, t, d))), Spacer]
  }

  /** A heading, table and spacer per date, the dates in the order given. */
  function Sections(roster: seq<RosterRecord>, joined: seq<JoinedRow>, t: string, ds: seq<Date>): (bs: seq<Block>)
    ensures |bs| == 3 * |ds|
    ensures forall k :: 0 <= k < |ds| ==> bs[3 * k] == DateHeading(ds[k]) && bs[3 * k + 1].Table? && bs[3 * k + 2] == Spacer
    ensures forall k :: 0 <= k < |ds| ==> bs[3 * k + 1] == Table(TableOf(ConfirmationRows(roster, joined, t, ds[k])))
  {
    if ds == [] then []
    else
      var n := |ds| - 1;
      assert forall k :: 0 <= k < n ==> ds[..n][k] == ds[k];
      Sections(roster, joined, t, ds[..n]) + DateSection(roster, joined, t, ds[n])
  }

  /** The dates of one teacher's records, ascending (the inner `groupby('Date')`). */
  function TeacherDates(roster: seq<RosterRecord>, t: string): seq<Date> {
    RosterDates(RecordsOf(roster, t))
  }

  /** The letterhead, the greeting of `t` and the fixed paragraphs before the first date. */
  function Opening(t: string): (o: seq<Block>)
    ensures |o| == 6 && o[0] == Letterhead && o[1] == Greeting(t)
    ensures forall b :: b in o ==> !b.DateHeading? && !b.Table? && !b.PageBreak? && (b.Greeting? ==> b == Greeting(t))
  {
    [Letterhead, Greeting(t), Directions, Spacer, Intro, Spacer]
  }

  /**
   * One teacher's letter: letterhead and greeting, then a heading, table
   * and spacer for each of the teacher's dates in ascending order, then the
   * closing and a page break.
   */
  function TeacherLetter(roster: seq<RosterRecord>, joined: seq<JoinedRow>, t: string): (l: seq<Block>)
    ensures var ds := TeacherDates(roster, t);
      && |l| == 8 + 3 * |ds|
      && l[0] == Letterhead && l[1] == Greeting(t)
      && (forall k :: 0 <= k < |ds| ==> l[6 + 3 * k] == DateHeading(ds[k]))
      && (forall k :: 0 <= k < |ds| ==> l[7 + 3 * k] == Table(TableOf(ConfirmationRows(roster, joined, t, ds[k]))))
      && l[|l| - 2] == Closing && l[|l| - 1] == PageBreak
  {
    var sections := Sections(roster, joined, t, TeacherDates(roster, t));
    LetterLayout(t, TeacherDates(roster, t), sections);
    Opening(t) + sections + [Closing, PageBreak]
  }

  lemma LetterLayout(t: string, ds: seq<Date>, sections: seq<Block>)
    requires |sections| == 3 * |ds|
    requires forall k :: 0 <= k < |ds| ==> sections[3 * k] == DateHeading(ds[k])
    ensures var l := Opening(t) + sections + [Closing, PageBreak];
      && |l| == 8 + 3 * |ds|
      && l[0] == Letterhead && l[1] == Greeting(t)
      && (forall k :: 0 <= k < |ds| ==> l[6 + 3 * k] == DateHeading(ds[k]))
      && l[|l| - 2] == Closing && l[|l| - 1] == PageBreak
      && (forall k :: 0 <= k < |sections| ==> l[6 + k] == sections[k])
  {
    var l := Opening(t) + sections + [Closing, PageBreak];
    assert forall k :: 0 <= k < |sections| ==> l[6 + k] == sections[k];
  }

  /** The letters of `ts`, one after another; the first greets `ts[0]` and the last ends the document. */
  function LettersFor(roster: seq<RosterRecord>, joined: seq<JoinedRow>, ts: seq<string>): (doc: seq<Block>)
    ensures |doc| >= 8 * |ts|
    ensures ts == [] ==> doc == []
    ensures ts != [] ==> doc[0] == Letterhead && doc[1] == Greeting(ts[0]) && doc[|doc| - 1] == PageBreak
  {
    if ts == [] then []
    else
      var n := |ts| - 1;
      var prefix := LettersFor(roster, joined, ts[..n]);
      var letter := TeacherLetter(roster, joined, ts[n]);
      AppendLetter(prefix, letter, n, ts[0]);
      prefix + letter
  }

  /** Appending a letter to the letters of `n` teachers keeps the first greeting and ends with a page break. */
  lemma AppendLetter(prefix: seq<Block>, letter: seq<Block>, n: nat, first: string)
    requires |prefix| >= 8 * n && |letter| >= 8 && letter[|letter| - 1] == PageBreak
    requires n == 0 ==> prefix == [] && letter[0] == Letterhead && letter[1] == Greeting(first)
    requires n > 0 ==> prefix[0] == Letterhead && prefix[1] == Greeting(first)
    ensures var doc := prefix + letter;
      |doc| >= 8 * (n + 1) && doc[0] == Letterhead && doc[1] == Greeting(first) && doc[|doc| - 1] == PageBreak
  {
  }

  /**
   * The whole document: empty exactly when the roster is, otherwise opening
   * with the letter to the first teacher in ascending order and ending in a
   * page break.
   */
  function Document(roster: seq<RosterRecord>, joined: seq<JoinedRow>): (doc: seq<Block>)
    ensures doc == [] <==> roster == []
    ensures roster != [] ==> roster[0].teacher in Teachers(roster) && |doc| >= 8 && doc[0] == Letterhead && doc[1] == Greeting(Teachers(roster)[0]) && doc[|doc| - 1] == PageBreak
  {
    LettersFor(roster, joined, Teachers(roster))
  }

  lemma SectionsStep(roster: seq<RosterRecord>, joined: seq<JoinedRow>, t: string, ds: seq<Date>, k: nat)
    requires k < |ds|
    ensures Sections(roster, joined, t, ds[..k + 1]) == Sections(roster, joined, t, ds[..k]) + DateSection(roster, joined, t, ds[k])
  {
    assert ds[..k + 1][..k] == ds[..k];
  }

  lemma LettersStep(roster: seq<RosterRecord>, joined: seq<JoinedRow>, ts: seq<string>, i: nat)
    requires i < |ts|
    ensures LettersFor(roster, joined, ts[..i + 1]) == LettersFor(roster, joined, ts[..i]) + TeacherLetter(roster, joined, ts[i])
  {
    assert ts[..i + 1][..i] == ts[..i];
  }

  /** Builds the flowables list with the nested teacher and date loops. */
  method CompileLetters(roster: seq<RosterRecord>, joined: seq<JoinedRow>) returns (flowables: seq<Block>)
    ensures flowables == Document(roster, joined)
  {
    var teachers := Teachers(roster);
    flowables := [];
    var i := 0;
    while i < |teachers|
      invariant 0 <= i <= |teachers|
      invariant flowables == LettersFor(roster, joined, teachers[..i])
    {
      var t := teachers[i];
      var sections := CompileSections(roster, joined, t);
      var letter := Opening(t) + sections + [Closing, PageBreak];
      LetterOfSections(roster, joined, t);
      LettersStep(roster, joined, teachers, i);
      flowables := flowables + letter;
      i := i + 1;
    }
    assert teachers[..i] == teachers;
  }

  /** A teacher's letter is its opening, its date sections and the closing, in that order. */
  lemma LetterOfSections(roster: seq<RosterRecord>, joined: seq<JoinedRow>, t: string)
    ensures TeacherLetter(roster, joined, t) == Opening(t) + Sections(roster, joined, t, TeacherDates(roster, t)) + [Closing, PageBreak]
  {
  }

  /** The inner loop over one teacher's dates. */
  method CompileSections(roster: seq<RosterRecord>, joined: seq<JoinedRow>, t: string) returns (sections: seq<Block>)
    ensures sections == Sections(roster, joined, t, TeacherDates(roster, t))
  {
    var dates := TeacherDates(roster, t);
    sections := [];
    var k := 0;
    while k < |dates|
      invariant 0 <= k <= |dates|
      invariant sections == Sections(roster, joined, t, dates[..k])
    {
      var d := dates[k];
      var rows := ConfirmationRows(roster, joined, t, d);
      SectionsStep(roster, joined, t, dates, k);
      sections := sections + [DateHeading(d), Table(TableOf(rows)), Spacer];
      k := k + 1;
    }
    assert dates[..k] == dates;
  }

  lemma {:induction false} SectionsHaveNoLetterBlocks(roster: seq<RosterRecord>, joined: seq<JoinedRow>, t: string, ds: seq<Date>)
    ensures forall b :: b in Sections(roster, joined, t, ds) ==> !b.Greeting? && !b.PageBreak?
  {
    if ds != [] {
      SectionsHaveNoLetterBlocks(roster, joined, t, ds[..|ds| - 1]);
    }
  }

  lemma TeacherLetterCounts(roster: seq<RosterRecord>, joined: seq<JoinedRow>, t: string)
    ensures multiset(TeacherLetter(roster, joined, t))[PageBreak] == 1
    ensures forall u :: multiset(TeacherLetter(roster, joined, t))[Greeting(u)] == if u == t then 1 else 0
  {
    var s := Sections(roster, joined, t, TeacherDates(roster, t));
    SectionsHaveNoLetterBlocks(roster, joined, t, TeacherDates(roster, t));
    assert TeacherLetter(roster, joined, t) == Opening(t) + s + [Closing, PageBreak];
    LetterCounts(t, s);
  }

  /** Around sections with no greeting and no page break, a letter greets only `t`, once, and breaks the page once. */
  lemma LetterCounts(t: string, s: seq<Block>)
    requires forall b :: b in s ==> !b.Greeting? && !b.PageBreak?
    ensures multiset(Opening(t) + s + [Closing, PageBreak])[PageBreak] == 1
    ensures forall u :: multiset(Opening(t) + s + [Closing, PageBreak])[Greeting(u)] == if u == t then 1 else 0
  {
    var o := Opening(t);
    var c := [Closing, PageBreak];
    assert multiset(o + s + c) == multiset(o + s) + multiset(c);
    assert multiset(o + s) == multiset(o) + multiset(s);
    assert PageBreak !in s;
    assert multiset(s)[PageBreak] == 0;
    forall u ensures multiset(o + s + c)[Greeting(u)] == if u == t then 1 else 0 {
      assert Greeting(u) !in s;
      assert multiset(s)[Greeting(u)] == 0;
    }
  }


  /** Counting over a concatenation: a letter's blocks add to the counts of the letters before it. */
  lemma CountsAppend(prefix: seq<Block>, letter: seq<Block>, ts: seq<string>, t: string)
    requires Distinct(ts + [t])
    requires multiset(prefix)[PageBreak] == |ts|
    requires forall u :: multiset(prefix)[Greeting(u)] == if u in ts then 1 else 0
    requires multiset(letter)[PageBreak] == 1
    requires forall u :: multiset(letter)[Greeting(u)] == if u == t then 1 else 0
    ensures multiset(prefix + letter)[PageBreak] == |ts| + 1
    ensures forall u :: multiset(prefix + letter)[Greeting(u)] == if u in ts + [t] then 1 else 0
  {
    assert multiset(prefix + letter) == multiset(prefix) + multiset(letter);
    forall i | 0 <= i < |ts| ensures ts[i] != t {
      assert (ts + [t])[i] == ts[i] && (ts + [t])[|ts|] == t;
    }
    forall u ensures multiset(prefix + letter)[Greeting(u)] == if u in ts + [t] then 1 else 0 {
      assert (u in ts + [t]) == (u in ts || u == t);
    }
  }

  lemma {:induction false} LettersForCounts(roster: seq<RosterRecord>, joined: seq<JoinedRow>, ts: seq<string>)
    requires Distinct(ts)
    ensures multiset(LettersFor(roster, joined, ts))[PageBreak] == |ts|
    ensures forall u :: multiset(LettersFor(roster, joined, ts))[Greeting(u)] == if u in ts then 1 else 0
  {
    if ts != [] {
      var n := |ts| - 1;
      assert ts == ts[..n] + [ts[n]];
      LettersForCounts(roster, joined, ts[..n]);
      TeacherLetterCounts(roster, joined, ts[n]);
      CountsAppend(LettersFor(roster, joined, ts[..n]), TeacherLetter(roster, joined, ts[n]), ts[..n], ts[n]);
    }
  }

  /**
   * Every roster teacher gets exactly one letter (one greeting) and every
   * letter ends in its own page break; no other name is greeted.
   */
  lemma OneLetterPerTeacher(roster: seq<RosterRecord>, joined: seq<JoinedRow>)
    ensures multiset(Document(roster, joined))[PageBreak] == |Teachers(roster)|
    ensures forall u ::
              multiset(Document(roster, joined))[Greeting(u)] ==
              if exists i :: 0 <= i < |roster| && roster[i].teacher == u then 1 else 0
  {
    LettersForCounts(roster, joined, Teachers(roster));
  }

  /** Every roster row with the same student id has the same name. */
  ghost predicate NamesAgree(roster: seq<RosterRecord>) {
    forall i, j :: 0 <= i < |roster| && 0 <= j < |roster| && roster[i].studentId == roster[j].studentId ==>
      roster[i].studentName == roster[j].studentName
  }

  lemma {:induction false} MatchesByKey(r1: RosterRecord, r2: RosterRecord, grid: seq<GridRow>)
    requires RecordKey(r1) == RecordKey(r2)
    ensures Matches(r1, grid) == Matches(r2, grid)
  {
    if grid != [] {
      MatchesByKey(r1, r2, grid[..|grid| - 1]);
    }
  }

  /**
   * When grid keys are unique and a student's name is the same on every
   * roster row, each student a teacher has on a date is listed exactly once
   * in that date's table, whether or not the grid has a row for them.
   */
  lemma EnrolledStudentListedOnce(roster: seq<RosterRecord>, grid: seq<GridRow>, t: string, d: Date, id: int)
    requires UniqueKeys(grid) && NamesAgree(roster)
    requires Enrolled(roster, t, d, id)
    ensures var rows := ConfirmationRows(roster, LeftJoin(roster, grid), t, d);
      exists k :: 0 <= k < |rows| && rows[k].studentId == id && forall l :: 0 <= l < |rows| && rows[l].studentId == id ==> l == k
  {
    var i :| 0 <= i < |roster| && roster[i].teacher == t && roster[i].date == d && roster[i].studentId == id;
    OneMergedRowPerStudent(roster, grid, i);
    ListedOnce(roster, LeftJoin(roster, grid), t, d, JoinedRowOf(roster[i], grid));
  }

  /** A merged row of an enrolled student that is the only merged row with its student and date is listed once. */
  lemma ListedOnce(roster: seq<RosterRecord>, joined: seq<JoinedRow>, t: string, d: Date, row: JoinedRow)
    requires row in joined && row.date == d && Enrolled(roster, t, d, row.studentId)
    requires forall j :: j in joined && j.date == d && j.studentId == row.studentId ==> j == row
    ensures var rows := ConfirmationRows(roster, joined, t, d);
      exists k :: 0 <= k < |rows| && rows[k].studentId == row.studentId && forall l :: 0 <= l < |rows| && rows[l].studentId == row.studentId ==> l == k
  {
    var rows := ConfirmationRows(roster, joined, t, d);
    assert row in rows;
    var k :| 0 <= k < |rows| && rows[k] == row;
    forall l | 0 <= l < |rows| && rows[l].studentId == row.studentId ensures l == k {
      assert rows[l] in joined;
    }
  }


  /**
   * With unique grid keys and consistent names, every merged row with the
   * student and date of roster row `i` is the merged row of roster row `i`.
   */
  lemma OneMergedRowPerStudent(roster: seq<RosterRecord>, grid: seq<GridRow>, i: nat)
    requires UniqueKeys(grid) && NamesAgree(roster) && i < |roster|
    ensures JoinedRowOf(roster[i], grid) in LeftJoin(roster, grid)
    ensures forall j :: j in LeftJoin(roster, grid) && j.date == roster[i].date && j.studentId == roster[i].studentId ==>
              j == JoinedRowOf(roster[i], grid)
  {
    LeftJoinKeepsRoster(roster, grid);
    RowPerRecord(roster, grid, LeftJoin(roster, grid), i);
  }

  /** In a row-for-row join, the only merged row for record `i`'s student and date is record `i`'s. */
  lemma RowPerRecord(roster: seq<RosterRecord>, grid: seq<GridRow>, joined: seq<JoinedRow>, i: nat)
    requires NamesAgree(roster) && i < |roster| && |joined| == |roster|
    requires forall m :: 0 <= m < |roster| ==> joined[m] == JoinedRowOf(roster[m], grid)
    ensures JoinedRowOf(roster[i], grid) in joined
    ensures forall j :: j in joined && j.date == roster[i].date && j.studentId == roster[i].studentId ==>
              j == JoinedRowOf(roster[i], grid)
  {
    assert joined[i] == JoinedRowOf(roster[i], grid);
    forall j | j in joined && j.date == roster[i].date && j.studentId == roster[i].studentId
      ensures j == JoinedRowOf(roster[i], grid)
    {
      var m :| 0 <= m < |joined| && joined[m] == j;
      MatchesByKey(roster[m], roster[i], grid);
    }
  }
}

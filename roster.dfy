/**
 * Roster normalisation: each wide roster row names two teachers (`Teacher`,
 * `Teacher.1`); it is split into two single-teacher candidates, candidates
 * with a missing field are dropped, and the date text is parsed.
 */
module Roster {
  import opened Wrappers
  import opened Ordering
  import opened Dates

  /** One row of a roster export; `None` is an empty cell. */
  datatype RawRow = RawRow(
    studentId: Option<int>,
    studentName: Option<string>,
    teacher: Option<string>,
    teacher1: Option<string>,
    date: Option<string>)

  /** A single-teacher row before missing cells are dropped. */
  datatype Candidate = Candidate(
    studentId: Option<int>,
    studentName: Option<string>,
    teacher: Option<string>,
    date: Option<string>)

  /** One student-teacher-date enrolment. */
  datatype RosterRecord = RosterRecord(studentId: int, studentName: string, teacher: string, date: Date)

  /** Why normalisation stops: no roster file to concatenate, or a date text that does not match `%m/%d/%y`. */
  datatype RosterError = NoRosterFiles | DateMismatch(text: string)

  /** The candidate of `row` that uses its first or its second teacher column. */
  function CandidateOf(row: RawRow, second: bool): Candidate {
    Candidate(row.studentId, row.studentName, if second then row.teacher1 else row.teacher, row.date)
  }

  /**
   * The two projections of one file, the `Teacher` one above the `Teacher.1`
   * one: row i gives candidates i and |rows| + i, equal except for the teacher.
   */
  function SplitFile(rows: seq<RawRow>): (c: seq<Candidate>)
    ensures |c| == 2 * |rows|
    ensures forall i :: 0 <= i < |rows| ==>
      && c[i].studentId == c[|rows| + i].studentId == rows[i].studentId
      && c[i].studentName == c[|rows| + i].studentName == rows[i].studentName
      && c[i].date == c[|rows| + i].date == rows[i].date
      && c[i].teacher == rows[i].teacher
      && c[|rows| + i].teacher == rows[i].teacher1
  {
    seq(|rows|, i requires 0 <= i < |rows| => CandidateOf(rows[i], false))
    + seq(|rows|, i requires 0 <= i < |rows| => CandidateOf(rows[i], true))
  }

  /** The concatenation of every file's split, in file order. */
  function Candidates(files: seq<seq<RawRow>>): (c: seq<Candidate>)
    ensures |c| == 2 * RowCount(files)
    ensures forall x :: x in c <==> exists f, i, second :: 0 <= f < |files| && 0 <= i < |files[f]| && x == CandidateOf(files[f][i], second)
  {
    if files == [] then []
    else
      var n := |files| - 1;
      var rest := Candidates(files[..n]);
      assert forall f :: 0 <= f < n ==> files[..n][f] == files[f];
      SplitFileMembers(files[n]);
      rest + SplitFile(files[n])
  }

  /** The candidates of one file are the two projections of its rows. */
  lemma SplitFileMembers(rows: seq<RawRow>)
    ensures forall x :: x in SplitFile(rows) <==> exists i, second :: 0 <= i < |rows| && x == CandidateOf(rows[i], second)
  {
    var p := seq(|rows|, i requires 0 <= i < |rows| => CandidateOf(rows[i], false));
    var q := seq(|rows|, i requires 0 <= i < |rows| => CandidateOf(rows[i], true));
    assert SplitFile(rows) == p + q;
    forall x ensures x in p + q <==> exists i, second :: 0 <= i < |rows| && x == CandidateOf(rows[i], second) {
      if x in p {
        var k :| 0 <= k < |p| && p[k] == x;
        assert x == CandidateOf(rows[k], false);
      } else if x in q {
        var k :| 0 <= k < |q| && q[k] == x;
        assert x == CandidateOf(rows[k], true);
      }
      if exists i, second :: 0 <= i < |rows| && x == CandidateOf(rows[i], second) {
        var i, second :| 0 <= i < |rows| && x == CandidateOf(rows[i], second);
        if second {
          assert q[i] == x;
        } else {
          assert p[i] == x;
        }
      }
    }
  }

  function RowCount(files: seq<seq<RawRow>>): nat {
    if files == [] then 0 else RowCount(files[..|files| - 1]) + |files[|files| - 1]|
  }

  /** Collects the per-file frames into one list, as the loop over roster files does. */
  method CollectCandidates(files: seq<seq<RawRow>>) returns (cands: seq<Candidate>)
    ensures cands == Candidates(files)
    ensures |cands| == 2 * RowCount(files)
  {
    cands := [];
    var i := 0;
    while i < |files|
      invariant 0 <= i <= |files|
      invariant cands == Candidates(files[..i])
      invariant |cands| == 2 * RowCount(files[..i])
    {
      assert files[..i + 1][..i] == files[..i];
      cands := cands + SplitFile(files[i]);
      i := i + 1;
    }
    assert files[..i] == files;
  }

  predicate Complete(c: Candidate) {
    c.studentId.Some? && c.studentName.Some? && c.teacher.Some? && c.date.Some?
  }

  /** `dropna`: keeps exactly the complete candidates, in order. */
  function DropMissing(cs: seq<Candidate>): (r: seq<Candidate>)
    ensures |r| <= |cs|
    ensures forall c :: c in r <==> c in cs && Complete(c)
  {
    if cs == [] then []
    else
      var rest := DropMissing(cs[..|cs| - 1]);
      var last := cs[|cs| - 1];
      assert cs == cs[..|cs| - 1] + [last];
      if Complete(last) then rest + [last] else rest
  }

  lemma {:induction false} DropMissingAppend(a: seq<Candidate>, b: seq<Candidate>)
    ensures DropMissing(a + b) == DropMissing(a) + DropMissing(b)
  {
    if b != [] {
      var b' := b[..|b| - 1];
      assert (a + b)[..|a + b| - 1] == a + b';
      assert (a + b)[|a + b| - 1] == b[|b| - 1];
      DropMissingAppend(a, b');
    } else {
      assert a + b == a;
    }
  }

  /** Number of records a raw row contributes: one per present teacher when the other cells are filled. */
  function Contribution(row: RawRow): nat {
    if row.studentId.Some? && row.studentName.Some? && row.date.Some? then
      (if row.teacher.Some? then 1 else 0) + (if row.teacher1.Some? then 1 else 0)
    else 0
  }

  function Contributions(rows: seq<RawRow>): nat {
    if rows == [] then 0 else Contributions(rows[..|rows| - 1]) + Contribution(rows[|rows| - 1])
  }

  function FirstTeacherCount(rows: seq<RawRow>): nat {
    if rows == [] then 0
    else FirstTeacherCount(rows[..|rows| - 1]) + (if Complete(CandidateOf(rows[|rows| - 1], false)) then 1 else 0)
  }

  function SecondTeacherCount(rows: seq<RawRow>): nat {
    if rows == [] then 0
    else SecondTeacherCount(rows[..|rows| - 1]) + (if Complete(CandidateOf(rows[|rows| - 1], true)) then 1 else 0)
  }

  lemma {:induction false} ProjectionSurvivors(rows: seq<RawRow>, second: bool)
    ensures |DropMissing(seq(|rows|, i requires 0 <= i < |rows| => CandidateOf(rows[i], second)))|
         == if second then SecondTeacherCount(rows) else FirstTeacherCount(rows)
  {
    var p := seq(|rows|, i requires 0 <= i < |rows| => CandidateOf(rows[i], second));
    if rows != [] {
      var n := |rows| - 1;
      var q := seq(n, i requires 0 <= i < n => CandidateOf(rows[..n][i], second));
      assert p == q + [CandidateOf(rows[n], second)];
      DropMissingAppend(q, [CandidateOf(rows[n], second)]);
      ProjectionSurvivors(rows[..n], second);
    }
  }

  lemma {:induction false} ContributionsSplit(rows: seq<RawRow>)
    ensures Contributions(rows) == FirstTeacherCount(rows) + SecondTeacherCount(rows)
  {
    if rows != [] {
      ContributionsSplit(rows[..|rows| - 1]);
    }
  }

  /**
   * After `dropna`, a file keeps one record per filled teacher column of each
   * row whose student, name and date are filled; so a row with a blank
   * `Teacher.1` contributes exactly one record.
   */
  lemma SplitFileSurvivors(rows: seq<RawRow>)
    ensures |DropMissing(SplitFile(rows))| == Contributions(rows)
  {
    var p := seq(|rows|, i requires 0 <= i < |rows| => CandidateOf(rows[i], false));
    var q := seq(|rows|, i requires 0 <= i < |rows| => CandidateOf(rows[i], true));
    DropMissingAppend(p, q);
    ProjectionSurvivors(rows, false);
    ProjectionSurvivors(rows, true);
    ContributionsSplit(rows);
  }

  /** Parsing succeeded on `c` giving `r`. */
  predicate ParsedFrom(c: Candidate, r: RosterRecord)
    requires Complete(c)
  {
    && r.studentId == c.studentId.value
    && r.studentName == c.studentName.value
    && r.teacher == c.teacher.value
    && ParseDate(c.date.value) == Some(r.date)
  }

  /**
   * `to_datetime(format="%m/%d/%y")` over the whole column: every date parses,
   * or the first mismatching text aborts.
   */
  function ParseDates(cs: seq<Candidate>): (r: Result<seq<RosterRecord>, RosterError>)
    requires forall i :: 0 <= i < |cs| ==> cs[i].date.Some? && Complete(cs[i])
    ensures r.Ok? <==> forall i :: 0 <= i < |cs| ==> ParseDate(cs[i].date.value).Some?
    ensures r.Ok? ==> |r.value| == |cs| && forall i :: 0 <= i < |cs| ==> ParsedFrom(cs[i], r.value[i])
    ensures r.Err? ==> exists i :: 0 <= i < |cs| && ParseDate(cs[i].date.value).None? && r.error == DateMismatch(cs[i].date.value)
  {
    if cs == [] then Ok([])
    else
      var c := cs[0];
      assert Complete(c);
      match ParseDate(c.date.value)
      case None => Err(DateMismatch(c.date.value))
      case Some(d) =>
        match ParseDates(cs[1..])
        case Err(e) => Err(e)
        case Ok(rest) => Ok([RosterRecord(c.studentId.value, c.studentName.value, c.teacher.value, d)] + rest)
  }

  /**
   * The normalised roster; it fails exactly when there is no roster file at
   * all (nothing to concatenate) or some complete candidate's date text does
   * not match the format.
   */
  function Normalise(files: seq<seq<RawRow>>): (r: Result<seq<RosterRecord>, RosterError>)
    ensures files == [] ==> r == Err(NoRosterFiles)
    ensures r.Err? <==> files == [] || exists c :: c in Candidates(files) && Complete(c) && ParseDate(c.date.value).None?
    ensures r.Ok? ==> |r.value| == |DropMissing(Candidates(files))|
  {
    if files == [] then Err(NoRosterFiles)
    else
      var kept := DropMissing(Candidates(files));
      NormaliseFails(Candidates(files), kept);
      ParseDates(kept)
  }

  lemma NormaliseFails(cands: seq<Candidate>, kept: seq<Candidate>)
    requires kept == DropMissing(cands)
    ensures forall i :: 0 <= i < |kept| ==> kept[i].date.Some? && Complete(kept[i])
    ensures ParseDates(kept).Err? <==> exists c :: c in cands && Complete(c) && ParseDate(c.date.value).None?
  {
    assert forall i :: 0 <= i < |kept| ==> kept[i] in kept;
    if ParseDates(kept).Err? {
      var i :| 0 <= i < |kept| && ParseDate(kept[i].date.value).None?;
      assert kept[i] in cands;
    }
    if exists c :: c in cands && Complete(c) && ParseDate(c.date.value).None? {
      var c :| c in cands && Complete(c) && ParseDate(c.date.value).None?;
      assert c in kept;
      var i :| 0 <= i < |kept| && kept[i] == c;
    }
  }

  /** The distinct teachers of the roster, ascending (the `groupby('Teacher')` order). */
  function Teachers(roster: seq<RosterRecord>): (ts: seq<string>)
    ensures StrictlySorted(ts, StrLess) && Distinct(ts)
    ensures forall t :: t in ts <==> exists i :: 0 <= i < |roster| && roster[i].teacher == t
  {
    StrLessIsStrictTotalOrder();
    var names := seq(|roster|, i requires 0 <= i < |roster| => roster[i].teacher);
    assert forall i :: 0 <= i < |roster| ==> names[i] == roster[i].teacher;
    SortedKeys(names, StrLess)
  }

  /** The distinct dates of the roster, ascending. */
  function RosterDates(roster: seq<RosterRecord>): (ds: seq<Date>)
    ensures StrictlySorted(ds, DateLess) && Distinct(ds)
    ensures forall d :: d in ds <==> exists i :: 0 <= i < |roster| && roster[i].date == d
  {
    DateLessIsStrictTotalOrder();
    var days := seq(|roster|, i requires 0 <= i < |roster| => roster[i].date);
    assert forall i :: 0 <= i < |roster| ==> days[i] == roster[i].date;
    SortedKeys(days, DateLess)
  }

  /** The records of one teacher, in roster order (one `groupby('Teacher')` group). */
  function RecordsOf(roster: seq<RosterRecord>, t: string): (rs: seq<RosterRecord>)
    ensures forall r :: r in rs <==> r in roster && r.teacher == t
  {
    if roster == [] then []
    else
      var rest := RecordsOf(roster[..|roster| - 1], t);
      var last := roster[|roster| - 1];
      assert roster == roster[..|roster| - 1] + [last];
      if last.teacher == t then rest + [last] else rest
  }
}

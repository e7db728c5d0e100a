/**
 * Calendar dates and the roster's fixed `%m/%d/%y` date format, as the
 * Python strptime pattern accepts it: month `1`-`9` or `01`-`12`, day `1`-`9`,
 * ` 1`-` 9` or `01`-`31`, exactly two year digits, the whole text consumed,
 * and the day checked against the month's length.
 */
module Dates {
  import opened Wrappers
  import opened Ordering

  /** A calendar date without a time component. */
  datatype Date = Date(year: int, month: int, day: int)

  /** Chronological order. */
  predicate DateLess(a: Date, b: Date) {
    || a.year < b.year
    || (a.year == b.year && (a.month < b.month || (a.month == b.month && a.day < b.day)))
  }

  lemma DateLessIsStrictTotalOrder()
    ensures StrictTotalOrder(DateLess)
  {
  }

  predicate IsLeapYear(y: int) {
    y % 4 == 0 && (y % 100 != 0 || y % 400 == 0)
  }

  function DaysInMonth(y: int, m: int): (n: int)
    requires 1 <= m <= 12
    ensures 28 <= n <= 31
  {
    if m == 2 then (if IsLeapYear(y) then 29 else 28)
    else if m == 4 || m == 6 || m == 9 || m == 11 then 30
    else 31
  }

  predicate ValidDate(d: Date) {
    1 <= d.month <= 12 && 1 <= d.day <= DaysInMonth(d.year, d.month)
  }

  /** The `%y` century rule: 00-68 are 2000-2068, 69-99 are 1969-1999. */
  function ExpandYear(yy: int): (y: int)
    requires 0 <= yy < 100
    ensures 1969 <= y <= 2068 && y % 100 == yy
  {
    if yy <= 68 then 2000 + yy else 1900 + yy
  }

  predicate IsDigit(c: char) {
    '0' <= c <= '9'
  }

  function DigitValue(c: char): (v: int)
    requires IsDigit(c)
    ensures 0 <= v <= 9
  {
    c as int - '0' as int
  }

  function DigitChar(v: int): (c: char)
    requires 0 <= v <= 9
    ensures IsDigit(c) && DigitValue(c) == v
  {
    ('0' as int + v) as char
  }

  /** The value of a two-digit field. */
  function TwoDigits(t: string): (v: int)
    requires |t| == 2 && IsDigit(t[0]) && IsDigit(t[1])
    ensures 0 <= v <= 99
  {
    10 * DigitValue(t[0]) + DigitValue(t[1])
  }

  /** The digit character of a digit's value is the character itself. */
  lemma DigitCharOfValue(c: char)
    requires IsDigit(c)
    ensures DigitChar(DigitValue(c)) == c
  {
  }

  /** Two digits are the zero-padded spelling of their value. */
  lemma Pad2OfTwoDigits(t: string)
    requires |t| == 2 && IsDigit(t[0]) && IsDigit(t[1])
    ensures Pad2(TwoDigits(t)) == t
  {
    var hi, lo := DigitValue(t[0]), DigitValue(t[1]);
    assert TwoDigits(t) / 10 == hi && TwoDigits(t) % 10 == lo;
    DigitCharOfValue(t[0]);
    DigitCharOfValue(t[1]);
  }

  /** The texts `%m` reads as month `m`: two digits, and a single digit below 10. */
  function MonthSpellings(m: int): set<string>
    requires 1 <= m <= 12
  {
    {Pad2(m)} + (if m <= 9 then {[DigitChar(m)]} else {})
  }

  /** The texts `%d` reads as day `d`: two digits, and below 10 a single digit or a space and a digit. */
  function DaySpellings(d: int): set<string>
    requires 1 <= d <= 31
  {
    {Pad2(d)} + (if d <= 9 then {[DigitChar(d)], [' ', DigitChar(d)]} else {})
  }

  /** `%m`: reads `t` as month `m` exactly when `t` is one of the spellings of `m`. */
  function MonthField(t: string): (r: Option<int>)
    ensures r.Some? ==> 1 <= r.value <= 12 && t in MonthSpellings(r.value)
    ensures r.None? ==> forall m :: 1 <= m <= 12 ==> t !in MonthSpellings(m)
  {
    if |t| == 1 && IsDigit(t[0]) && t[0] != '0' then
      DigitCharOfValue(t[0]);
      assert t == [t[0]];
      Some(DigitValue(t[0]))
    else if |t| == 2 && IsDigit(t[0]) && IsDigit(t[1]) && 1 <= TwoDigits(t) <= 12 then
      Pad2OfTwoDigits(t);
      Some(TwoDigits(t))
    else None
  }

  /** `%d`: reads `t` as day `d` exactly when `t` is one of the spellings of `d`. */
  function DayField(t: string): (r: Option<int>)
    ensures r.Some? ==> 1 <= r.value <= 31 && t in DaySpellings(r.value)
    ensures r.None? ==> forall d :: 1 <= d <= 31 ==> t !in DaySpellings(d)
  {
    if |t| == 1 && IsDigit(t[0]) && t[0] != '0' then
      DigitCharOfValue(t[0]);
      assert t == [t[0]];
      Some(DigitValue(t[0]))
    else if |t| == 2 && t[0] == ' ' && IsDigit(t[1]) && t[1] != '0' then
      DigitCharOfValue(t[1]);
      assert t == [' ', t[1]];
      Some(DigitValue(t[1]))
    else if |t| == 2 && IsDigit(t[0]) && IsDigit(t[1]) && 1 <= TwoDigits(t) <= 31 then
      Pad2OfTwoDigits(t);
      Some(TwoDigits(t))
    else None
  }

  /** `%y`: reads `t` as `yy` exactly when `t` is the two-digit spelling of `yy`. */
  function YearField(t: string): (r: Option<int>)
    ensures r.Some? ==> 0 <= r.value <= 99 && t == Pad2(r.value)
    ensures r.None? ==> forall yy :: 0 <= yy <= 99 ==> t != Pad2(yy)
  {
    if |t| == 2 && IsDigit(t[0]) && IsDigit(t[1]) then
      Pad2OfTwoDigits(t);
      Some(TwoDigits(t))
    else None
  }

  /** Every spelling of month `m` is read as `m`. */
  lemma MonthFieldReads(t: string, m: int)
    requires 1 <= m <= 12 && t in MonthSpellings(m)
    ensures MonthField(t) == Some(m)
  {
    var r := MonthField(t);
    assert t in MonthSpellings(r.value);
    if t != Pad2(m) {
      assert t == [DigitChar(m)];
    }
  }

  /** Every spelling of day `d` is read as `d`. */
  lemma DayFieldReads(t: string, d: int)
    requires 1 <= d <= 31 && t in DaySpellings(d)
    ensures DayField(t) == Some(d)
  {
    var r := DayField(t);
    assert t in DaySpellings(r.value);
    if t != Pad2(d) {
      assert t == [DigitChar(d)] || t == [' ', DigitChar(d)];
    }
  }

  /** The two-digit spelling of `yy` is read as `yy`. */
  lemma YearFieldReads(yy: int)
    requires 0 <= yy <= 99
    ensures YearField(Pad2(yy)) == Some(yy)
  {
    var r := YearField(Pad2(yy));
    assert Pad2(yy) == Pad2(r.value);
  }

  /** The pieces of `s` between slashes (`s.split('/')`). */
  function SplitSlashes(s: string): (parts: seq<string>)
    ensures |parts| >= 1
  {
    if s == [] then [""]
    else
      var rest := SplitSlashes(s[1..]);
      if s[0] == '/' then [""] + rest
      else [[s[0]] + rest[0]] + rest[1..]
  }

  /** Parses `%m/%d/%y`; `None` is the format mismatch that aborts a run. */
  function ParseDate(s: string): (r: Option<Date>)
    ensures r.Some? ==> ValidDate(r.value) && 1969 <= r.value.year <= 2068
  {
    var parts := SplitSlashes(s);
    if |parts| != 3 then None
    else
      match (MonthField(parts[0]), DayField(parts[1]), YearField(parts[2]))
      case (Some(m), Some(d), Some(yy)) =>
        var date := Date(ExpandYear(yy), m, d);
        if ValidDate(date) then Some(date) else None
      case _ => None
  }

  /** Two zero-padded digits. */
  function Pad2(v: int): (t: string)
    requires 0 <= v <= 99
    ensures |t| == 2 && IsDigit(t[0]) && IsDigit(t[1]) && TwoDigits(t) == v
  {
    [DigitChar(v / 10), DigitChar(v % 10)]
  }

  /** The zero-padded `%m/%d/%y` text of a date the format can express. */
  function FormatDate(d: Date): (s: string)
    requires ValidDate(d) && 1969 <= d.year <= 2068
  {
    Pad2(d.month) + "/" + Pad2(d.day) + "/" + Pad2(d.year % 100)
  }

  lemma {:induction false} SplitAtSlash(a: string, b: string)
    requires '/' !in a
    ensures SplitSlashes(a + "/" + b) == [a] + SplitSlashes(b)
  {
    if a == [] {
      assert a + "/" + b == ['/'] + b;
      assert (a + "/" + b)[1..] == b;
    } else {
      assert (a + "/" + b)[1..] == a[1..] + "/" + b;
      SplitAtSlash(a[1..], b);
      assert [a[0]] + a[1..] == a;
    }
  }

  lemma {:induction false} SplitNoSlash(a: string)
    requires '/' !in a
    ensures SplitSlashes(a) == [a]
  {
    if a != [] {
      SplitNoSlash(a[1..]);
      assert [a[0]] + a[1..] == a;
    }
  }

  /** Every date in the format's range is read back from its own text. */
  lemma ParseFormattedDate(d: Date)
    requires ValidDate(d) && 1969 <= d.year <= 2068
    ensures ParseDate(FormatDate(d)) == Some(d)
  {
    var m, dd, yy := Pad2(d.month), Pad2(d.day), Pad2(d.year % 100);
    assert '/' !in m && '/' !in dd && '/' !in yy;
    SplitThree(m, dd, yy);
    MonthFieldReads(m, d.month);
    DayFieldReads(dd, d.day);
    YearFieldReads(d.year % 100);
    ParseOfFields(FormatDate(d), d);
  }

  /** `'/'.join(parts)`. */
  function JoinSlashes(parts: seq<string>): string
    requires |parts| >= 1
    decreases |parts|
  {
    if |parts| == 1 then parts[0] else parts[0] + "/" + JoinSlashes(parts[1..])
  }

  /** Splitting at slashes and joining the pieces back gives the text again. */
  lemma {:induction false} SplitSlashesJoin(s: string)
    ensures JoinSlashes(SplitSlashes(s)) == s
  {
    if s != [] {
      var rest := SplitSlashes(s[1..]);
      SplitSlashesJoin(s[1..]);
      if s[0] == '/' {
        assert ([""] + rest)[1..] == rest;
        assert s == "/" + s[1..];
      } else {
        var parts := [[s[0]] + rest[0]] + rest[1..];
        if |rest| == 1 {
          assert JoinSlashes(parts) == [s[0]] + rest[0];
        } else {
          assert parts[1..] == rest[1..];
          assert JoinSlashes(rest) == rest[0] + "/" + JoinSlashes(rest[1..]);
          assert JoinSlashes(parts) == [s[0]] + (rest[0] + "/" + JoinSlashes(rest[1..]));
        }
        assert s == [s[0]] + s[1..];
      }
    }
  }

  /** A month or day spelling holds no slash. */
  lemma SpellingsHaveNoSlash(m: int, d: int)
    requires 1 <= m <= 12 && 1 <= d <= 31
    ensures forall t :: t in MonthSpellings(m) ==> '/' !in t
    ensures forall t :: t in DaySpellings(d) ==> '/' !in t
  {
  }

  /** `s` spells date `d` as a month spelling, a slash, a day spelling, a slash and the two year digits. */
  ghost predicate SpelledAs(s: string, d: Date)
    requires ValidDate(d)
  {
    exists mt, dt :: mt in MonthSpellings(d.month) && dt in DaySpellings(d.day)
                  && s == mt + "/" + dt + "/" + Pad2(d.year % 100)
  }

  /**
   * `%m/%d/%y` accepts `s` as date `d` exactly when `d` is a real date the
   * two-digit year can express and `s` spells it.
   */
  lemma ParseDateIff(s: string, d: Date)
    ensures ParseDate(s) == Some(d) <==> ValidDate(d) && 1969 <= d.year <= 2068 && SpelledAs(s, d)
  {
    if ParseDate(s) == Some(d) {
      ParsedTextSpellsDate(s, d);
    }
    if ValidDate(d) && 1969 <= d.year <= 2068 && SpelledAs(s, d) {
      SpelledDateParses(s, d);
    }
  }

  lemma ParsedTextSpellsDate(s: string, d: Date)
    requires ParseDate(s) == Some(d)
    ensures ValidDate(d) && SpelledAs(s, d)
  {
    var parts := SplitSlashes(s);
    assert |parts| == 3;
    assert MonthField(parts[0]).Some? && DayField(parts[1]).Some? && YearField(parts[2]).Some?;
    SplitSlashesJoin(s);
    assert parts[1..][1..] == [parts[2]];
    assert JoinSlashes(parts[1..]) == parts[1] + "/" + parts[2];
    assert s == parts[0] + "/" + (parts[1] + "/" + parts[2]);
    assert s == parts[0] + "/" + parts[1] + "/" + parts[2];
    var yy := YearField(parts[2]).value;
    assert d == Date(ExpandYear(yy), MonthField(parts[0]).value, DayField(parts[1]).value);
    assert d.year % 100 == yy;
    assert parts[0] in MonthSpellings(d.month) && parts[1] in DaySpellings(d.day);
  }

  lemma SpelledDateParses(s: string, d: Date)
    requires ValidDate(d) && 1969 <= d.year <= 2068 && SpelledAs(s, d)
    ensures ParseDate(s) == Some(d)
  {
    var mt, dt :| mt in MonthSpellings(d.month) && dt in DaySpellings(d.day)
                 && s == mt + "/" + dt + "/" + Pad2(d.year % 100);
    var yt := Pad2(d.year % 100);
    SpellingsHaveNoSlash(d.month, d.day);
    SplitThree(mt, dt, yt);
    MonthFieldReads(mt, d.month);
    DayFieldReads(dt, d.day);
    YearFieldReads(d.year % 100);
    ParseOfFields(s, d);
  }

  lemma SplitThree(a: string, b: string, c: string)
    requires '/' !in a && '/' !in b && '/' !in c
    ensures SplitSlashes(a + "/" + b + "/" + c) == [a, b, c]
  {
    SplitNoSlash(c);
    SplitAtSlash(b, c);
    SplitAtSlash(a, b + "/" + c);
    assert a + "/" + (b + "/" + c) == a + "/" + b + "/" + c;
  }

  /** A text split into three fields that read as the date's month, day and year parses to the date. */
  lemma ParseOfFields(s: string, d: Date)
    requires ValidDate(d) && 1969 <= d.year <= 2068
    requires var parts := SplitSlashes(s);
      |parts| == 3 && MonthField(parts[0]) == Some(d.month) && DayField(parts[1]) == Some(d.day)
      && YearField(parts[2]) == Some(d.year % 100)
    ensures ParseDate(s) == Some(d)
  {
    var parts := SplitSlashes(s);
    var date := Date(ExpandYear(d.year % 100), d.month, d.day);
    assert date == d;
    assert ParseDate(s) == if ValidDate(date) then Some(date) else None;
  }

}

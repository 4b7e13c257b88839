/** Serialized UTC instants.

The accepted text has the shape YYYY-MM-DDThh:mm:ss with an optional fraction and a final Z, and its
components must survive a trip through a `Date`: they are turned into an instant by `Date.UTC` and
read back by the UTC accessors.  Section numbers refer to ECMA-262.
*/
module Timestamps {
  import opened Utf16

  // ---------- the calendar of section 21.4.1 ----------

  predicate IsLeap(y: int) { y % 4 == 0 && (y % 100 != 0 || y % 400 == 0) }

  function DaysInYear(y: int): int { if IsLeap(y) then 366 else 365 }

  /** The number of the first day of a year, counted from 1970. */
  function DayFromYear(y: int): int {
    365 * (y - 1970) + (y - 1969) / 4 - (y - 1901) / 100 + (y - 1601) / 400
  }

  /** The day within a year on which a month starts; months count from 0. */
  function MonthStart(month: int, leap: bool): int
    requires 0 <= month <= 12
  {
    var days := [0, 31, 59, 90, 120, 151, 181, 212, 243, 273, 304, 334, 365];
    days[month] + if leap && month >= 2 then 1 else 0
  }

  function DaysInMonth(y: int, month: int): int
    requires 0 <= month < 12
  {
    MonthStart(month + 1, IsLeap(y)) - MonthStart(month, IsLeap(y))
  }

  /** MakeDay: months outside the year carry into other years. */
  function MakeDay(y: int, month: int, date: int): int {
    var year := y + month / 12;
    DayFromYear(year) + MonthStart(month % 12, IsLeap(year)) + date - 1
  }

  datatype Components = Components(year: int, month: int, date: int, hour: int, minute: int, second: int)

  /** `Date.UTC` in seconds: two-digit years mean the twentieth century. */
  function DateUtc(c: Components): int {
    var year := if 0 <= c.year <= 99 then 1900 + c.year else c.year;
    MakeDay(year, c.month, c.date) * 86400 + c.hour * 3600 + c.minute * 60 + c.second
  }

  /** What the six UTC accessors answer for an instant. */
  predicate Shows(t: int, c: Components) {
    ShowsIn(DayFromYear(c.year), IsLeap(c.year), t, c)
  }

  /** The same with the first day of the year given. */
  predicate ShowsIn(first: int, leap: bool, t: int, c: Components) {
    var within := t / 86400 - first;
    && 0 <= c.month < 12
    && MonthStart(c.month, leap) <= within < MonthStart(c.month + 1, leap)
    && c.date == within - MonthStart(c.month, leap) + 1
    && c.hour == t / 3600 % 24 && c.minute == t / 60 % 60 && c.second == t % 60
  }

  lemma Hundreds(k: int)
    ensures 100 * k % 100 == 0
  {
  }

  lemma Fours(k: int)
    ensures 4 * k % 4 == 0
  {
  }

  lemma MultipleOf400(y: int)
    requires y % 400 == 0
    ensures y % 100 == 0
  {
    Hundreds(4 * (y / 400));
  }

  lemma MultipleOf100(y: int)
    requires y % 100 == 0
    ensures y % 4 == 0
  {
    Fours(25 * (y / 100));
  }

  lemma LeapDays(y: int)
    ensures (if IsLeap(y) then 1 else 0)
         == (if y % 4 == 0 then 1 else 0) - (if y % 100 == 0 then 1 else 0) + (if y % 400 == 0 then 1 else 0)
  {
    if y % 400 == 0 { MultipleOf400(y); }
    if y % 100 == 0 { MultipleOf100(y); }
  }

  lemma FourYears(y: int)
    ensures (y - 1968) / 4 == (y - 1969) / 4 + if y % 4 == 0 then 1 else 0
  {
  }

  lemma Centuries(y: int)
    ensures (y - 1900) / 100 == (y - 1901) / 100 + if y % 100 == 0 then 1 else 0
  {
  }

  lemma FourCenturies(y: int)
    ensures (y - 1600) / 400 == (y - 1601) / 400 + if y % 400 == 0 then 1 else 0
  {
  }

  lemma YearStep(y: int)
    ensures DayFromYear(y + 1) == DayFromYear(y) + DaysInYear(y)
  {
    FourYears(y);
    Centuries(y);
    FourCenturies(y);
    LeapDays(y);
  }

  lemma {:induction false} YearsIncrease(a: int, b: int)
    requires a < b
    ensures DayFromYear(a) + DaysInYear(a) <= DayFromYear(b)
    decreases b - a
  {
    YearStep(b - 1);
    if a < b - 1 { YearsIncrease(a, b - 1); } else { YearStep(a); }
  }

  lemma MonthsIncrease(a: int, b: int, leap: bool)
    requires 0 <= a <= b <= 12
    ensures MonthStart(a, leap) <= MonthStart(b, leap)
  {
  }

  /** An instant shown in a year lies within that year. */
  lemma WithinYear(first: int, leap: bool, t: int, c: Components)
    requires ShowsIn(first, leap, t, c)
    ensures first <= t / 86400 < first + if leap then 366 else 365
  {
    MonthsIncrease(0, c.month, leap);
    MonthsIncrease(c.month + 1, 12, leap);
  }

  lemma SameYearShowsOne(first: int, leap: bool, t: int, a: Components, b: Components)
    requires ShowsIn(first, leap, t, a) && ShowsIn(first, leap, t, b)
    ensures a == b.(year := a.year)
  {
    if a.month < b.month { MonthsIncrease(a.month + 1, b.month, leap); }
    if b.month < a.month { MonthsIncrease(b.month + 1, a.month, leap); }
  }

  /** The accessors are functions of the instant: it shows at most one set of components. */
  lemma ShowsOne(t: int, a: Components, b: Components)
    requires Shows(t, a) && Shows(t, b)
    ensures a == b
  {
    WithinYear(DayFromYear(a.year), IsLeap(a.year), t, a);
    WithinYear(DayFromYear(b.year), IsLeap(b.year), t, b);
    if a.year < b.year { YearsIncrease(a.year, b.year); }
    if b.year < a.year { YearsIncrease(b.year, a.year); }
    SameYearShowsOne(DayFromYear(a.year), IsLeap(a.year), t, a, b);
  }

  predicate InCalendar(c: Components) {
    && 0 <= c.month < 12 && 1 <= c.date <= DaysInMonth(c.year, c.month)
    && 0 <= c.hour < 24 && 0 <= c.minute < 60 && 0 <= c.second < 60
  }

  lemma Quotient(q: int, n: int, r: int)
    requires n == 24 || n == 60 || n == 3600 || n == 86400
    requires 0 <= r < n
    ensures (q * n + r) / n == q && (q * n + r) % n == r
  {
    if n == 24 {
      assert (q * 24 + r) / 24 == q;
    } else if n == 60 {
      assert (q * 60 + r) / 60 == q;
    } else if n == 3600 {
      assert (q * 3600 + r) / 3600 == q;
    } else {
      assert (q * 86400 + r) / 86400 == q;
    }
  }

  /** Times of day that do not carry into another unit. */
  lemma ClockParts(day: int, h: int, mi: int, s: int)
    requires 0 <= h < 24 && 0 <= mi < 60 && 0 <= s < 60
    ensures var t := day * 86400 + h * 3600 + mi * 60 + s;
      t / 86400 == day && t / 3600 % 24 == h && t / 60 % 60 == mi && t % 60 == s
  {
    Quotient(day, 86400, h * 3600 + mi * 60 + s);
    Quotient(day * 24 + h, 3600, mi * 60 + s);
    Quotient(day, 24, h);
    Quotient((day * 24 + h) * 60 + mi, 60, s);
    Quotient(day * 24 + h, 60, mi);
  }

  /** Components in the calendar make an instant that shows them, in whatever year is meant. */
  lemma CalendarShowsIn(first: int, leap: bool, c: Components)
    requires 0 <= c.month < 12 && 1 <= c.date <= MonthStart(c.month + 1, leap) - MonthStart(c.month, leap)
    requires 0 <= c.hour < 24 && 0 <= c.minute < 60 && 0 <= c.second < 60
    ensures var day := first + MonthStart(c.month, leap) + c.date - 1;
      ShowsIn(first, leap, day * 86400 + c.hour * 3600 + c.minute * 60 + c.second, c)
  {
    ClockParts(first + MonthStart(c.month, leap) + c.date - 1, c.hour, c.minute, c.second);
  }

  lemma MakeDayInYear(y: int, month: int, date: int)
    requires 0 <= month < 12
    ensures MakeDay(y, month, date) == DayFromYear(y) + MonthStart(month, IsLeap(y)) + date - 1
  {
    assert month / 12 == 0 && month % 12 == month;
  }

  lemma YearStarts(year: int)
    requires year >= 100
    ensures DateUtc(Components(year, 0, 1, 0, 0, 0)) == DayFromYear(year) * 86400
  {
    MakeDayInYear(year, 0, 1);
  }

  /** Instants are counted from the first second of 1970; 10 957 days later the year 2000 began. */
  lemma Epoch()
    ensures DateUtc(Components(1970, 0, 1, 0, 0, 0)) == 0
    ensures DateUtc(Components(2000, 0, 1, 0, 0, 0)) == 10957 * 86400
  {
    YearStarts(1970);
    YearStarts(2000);
  }

  /** Months carry into years, and a year below 100 means the twentieth century. */
  lemma Carries(c: Components)
    ensures MakeDay(c.year, c.month + 12, c.date) == MakeDay(c.year + 1, c.month, c.date)
    ensures 0 <= c.year <= 99 ==> DateUtc(c) == DateUtc(c.(year := 1900 + c.year))
  {
    assert (c.month + 12) / 12 == c.month / 12 + 1 && (c.month + 12) % 12 == c.month % 12;
  }

  /** A two-digit year is moved past the end of the year that was written. */
  lemma TwoDigitYearMoves(c: Components)
    requires 0 <= c.year <= 99 && 0 <= c.month < 12 && 1 <= c.date
    requires 0 <= c.hour < 24 && 0 <= c.minute < 60 && 0 <= c.second < 60
    ensures DateUtc(c) / 86400 >= DayFromYear(c.year) + DaysInYear(c.year)
  {
    var year := 1900 + c.year;
    YearsIncrease(c.year, year);
    MonthsIncrease(0, c.month, IsLeap(year));
    MakeDayInYear(year, c.month, c.date);
    ClockParts(MakeDay(year, c.month, c.date), c.hour, c.minute, c.second);
  }

  lemma CalendarShows(c: Components)
    requires InCalendar(c) && c.year >= 100
    ensures Shows(DateUtc(c), c)
  {
    CalendarShowsIn(DayFromYear(c.year), IsLeap(c.year), c);
    MakeDayInYear(c.year, c.month, c.date);
  }

  lemma ShownIsCalendar(c: Components)
    requires 0 <= c.year && Shows(DateUtc(c), c)
    ensures InCalendar(c) && c.year >= 100
  {
    WithinYear(DayFromYear(c.year), IsLeap(c.year), DateUtc(c), c);
    if c.year <= 99 { TwoDigitYearMoves(c); }
  }

  /** The check through `Date` accepts exactly the real dates and times of the calendar, except that it
  refuses every year below 100. */
  lemma RealInstantIffCalendar(c: Components)
    requires 0 <= c.year
    ensures Shows(DateUtc(c), c) <==> InCalendar(c) && c.year >= 100
  {
    if Shows(DateUtc(c), c) { ShownIsCalendar(c); }
    if InCalendar(c) && c.year >= 100 { CalendarShows(c); }
  }

  /** The last day of the year 99 is in the calendar and is refused. */
  lemma FirstCenturyRefused()
    ensures var c := Components(99, 11, 31, 0, 0, 0); InCalendar(c) && !Shows(DateUtc(c), c)
  {
    RealInstantIffCalendar(Components(99, 11, 31, 0, 0, 0));
  }

  // ---------- the text ----------

  const DASH: CodeUnit := 45
  const COLON: CodeUnit := 58
  const DOT: CodeUnit := 46
  const LETTER_T: CodeUnit := 84
  const LETTER_Z: CodeUnit := 90

  predicate IsDigit(c: CodeUnit) { 48 <= c <= 57 }

  predicate AllDigits(t: Text) { forall i :: 0 <= i < |t| ==> IsDigit(t[i]) }

  function Value(t: Text): nat
    requires AllDigits(t)
  {
    if t == [] then 0 else Value(t[..|t| - 1]) * 10 + (t[|t| - 1] - 48)
  }

  /** The pattern, with a fraction of one to nine digits or none. */
  predicate MatchesIso(t: Text) {
    && |t| >= 20
    && AllDigits(t[..4]) && t[4] == DASH && AllDigits(t[5..7]) && t[7] == DASH && AllDigits(t[8..10])
    && t[10] == LETTER_T
    && AllDigits(t[11..13]) && t[13] == COLON && AllDigits(t[14..16]) && t[16] == COLON && AllDigits(t[17..19])
    && t[|t| - 1] == LETTER_Z
    && (|t| == 20 || (22 <= |t| <= 30 && t[19] == DOT && AllDigits(t[20..|t| - 1])))
  }

  function Read(t: Text): Components
    requires MatchesIso(t)
  {
    Components(Value(t[..4]), Value(t[5..7]) - 1, Value(t[8..10]), Value(t[11..13]), Value(t[14..16]), Value(t[17..19]))
  }

  predicate IsTimestamp(t: Text) { MatchesIso(t) && Shows(DateUtc(Read(t)), Read(t)) }

  /** What a timestamp says: a real date and time, in the year 100 or later. */
  lemma TimestampIsCalendarDate(t: Text)
    ensures IsTimestamp(t) <==> MatchesIso(t) && InCalendar(Read(t)) && Read(t).year >= 100
  {
    if MatchesIso(t) { RealInstantIffCalendar(Read(t)); }
  }

  /** A timestamp is plain ASCII. */
  lemma TimestampIsAscii(t: Text)
    requires MatchesIso(t)
    ensures forall i :: 0 <= i < |t| ==> t[i] < 128
  {
    forall i | 0 <= i < |t| ensures t[i] < 128 {
      if i < 4 { assert t[i] == t[..4][i]; }
      else if 5 <= i < 7 { assert t[i] == t[5..7][i - 5]; }
      else if 8 <= i < 10 { assert t[i] == t[8..10][i - 8]; }
      else if 11 <= i < 13 { assert t[i] == t[11..13][i - 11]; }
      else if 14 <= i < 16 { assert t[i] == t[14..16][i - 14]; }
      else if 17 <= i < 19 { assert t[i] == t[17..19][i - 17]; }
      else if 20 <= i < |t| - 1 { assert t[i] == t[20..|t| - 1][i - 20]; }
    }
  }

  /** A column that replaces lone surrogates neither makes nor breaks a timestamp. */
  lemma ReplacedTimestamp(t: Text)
    ensures IsTimestamp(ReplaceLone(t)) <==> IsTimestamp(t)
    ensures IsTimestamp(t) ==> ReplaceLone(t) == t && WellFormed(t)
  {
    ReplaceLoneKeepsBlank(t);
    if IsTimestamp(t) {
      TimestampIsAscii(t);
      PlainIsWellFormed(t);
      ReplaceLoneIdentity(t);
    }
    if IsTimestamp(ReplaceLone(t)) {
      TimestampIsAscii(ReplaceLone(t));
      assert ReplaceLone(t) == t;
    }
  }
}

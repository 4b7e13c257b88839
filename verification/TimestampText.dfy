/** Timestamps from their digits: which texts the schema accepts, without reading them. */
module TimestampText {
  import opened Utf16
  import opened Timestamps

  /** A date and time as it is written; months count from 1. */
  datatype Moment = Moment(year: nat, month: nat, day: nat, hour: nat, minute: nat, second: nat) {
    /** Four digits for the year, two for everything else. */
    predicate IsWritable() { year < 10000 && month < 100 && day < 100 && hour < 100 && minute < 100 && second < 100 }
  }

  function Digit(n: nat): CodeUnit
    requires n < 10
  {
    '0' as int + n
  }

  /** YYYY-MM-DDThh:mm:ss, digit by digit. */
  function Head(m: Moment): (t: Text)
    requires m.IsWritable()
    ensures |t| == 19
  {
    [Digit(m.year / 1000), Digit(m.year / 100 % 10), Digit(m.year / 10 % 10), Digit(m.year % 10), '-' as int,
     Digit(m.month / 10), Digit(m.month % 10), '-' as int, Digit(m.day / 10), Digit(m.day % 10), 'T' as int,
     Digit(m.hour / 10), Digit(m.hour % 10), ':' as int, Digit(m.minute / 10), Digit(m.minute % 10), ':' as int,
     Digit(m.second / 10), Digit(m.second % 10)]
  }

  /** Nothing, or a point and one to nine digits. */
  predicate IsFraction(f: Text) {
    f == [] || (2 <= |f| <= 10 && f[0] == '.' as int && forall i :: 1 <= i < |f| ==> '0' as int <= f[i] <= '9' as int)
  }

  function Written(m: Moment, fraction: Text): Text
    requires m.IsWritable()
  {
    Head(m) + fraction + ['Z' as int]
  }

  /** The days of a month, January first. */
  function MonthLength(year: nat, month: nat): nat
    requires 1 <= month <= 12
  {
    match month
    case 2 => if year % 4 == 0 && (year % 100 != 0 || year % 400 == 0) then 29 else 28
    case 4 => 30
    case 6 => 30
    case 9 => 30
    case 11 => 30
    case _ => 31
  }

  predicate IsReal(m: Moment) {
    && 1 <= m.month <= 12 && 1 <= m.day <= MonthLength(m.year, m.month)
    && m.hour < 24 && m.minute < 60 && m.second < 60
  }

  lemma LengthIs(year: nat, month: nat)
    requires 1 <= month <= 12
    ensures DaysInMonth(year, month - 1) == MonthLength(year, month)
  {
  }

  // ---------- from numbers to digits ----------

  /** A number from its decimal digits, and back. */
  lemma Decimals(a: nat, b: nat, c: nat, d: nat)
    requires a < 10 && b < 10 && c < 10 && d < 10
    ensures var n := ((a * 10 + b) * 10 + c) * 10 + d;
      n < 10000 && n / 1000 == a && n / 100 % 10 == b && n / 10 % 10 == c && n % 10 == d
  {
    var n := ((a * 10 + b) * 10 + c) * 10 + d;
    assert n / 10 == (a * 10 + b) * 10 + c;
    assert n / 100 == a * 10 + b;
  }

  lemma Recomposed(n: nat)
    requires n < 10000
    ensures n == ((n / 1000 * 10 + n / 100 % 10) * 10 + n / 10 % 10) * 10 + n % 10 && n / 1000 < 10
  {
    assert n / 10 == n / 100 * 10 + n / 10 % 10;
    assert n / 100 == n / 1000 * 10 + n / 100 % 10;
  }

  function Two(n: nat): (t: Text)
    requires n < 100
  {
    [Digit(n / 10), Digit(n % 10)]
  }

  function Four(n: nat): (t: Text)
    requires n < 10000
  {
    [Digit(n / 1000), Digit(n / 100 % 10), Digit(n / 10 % 10), Digit(n % 10)]
  }

  lemma ValueOfTwo(t: Text)
    requires |t| == 2 && AllDigits(t)
    ensures Value(t) == (t[0] - 48) * 10 + (t[1] - 48)
  {
    assert t[..1][..0] == [];
    assert Value(t[..1]) == t[0] - 48;
  }

  lemma ValueOfFour(t: Text)
    requires |t| == 4 && AllDigits(t)
    ensures Value(t) == (((t[0] - 48) * 10 + (t[1] - 48)) * 10 + (t[2] - 48)) * 10 + (t[3] - 48)
  {
    ValueOfTwo(t[..2]);
    assert t[..3][..2] == t[..2];
    assert Value(t[..3]) == Value(t[..2]) * 10 + (t[2] - 48);
  }

  /** Two digits write their value. */
  lemma TwoDigits(t: Text)
    requires |t| == 2 && AllDigits(t)
    ensures Value(t) < 100 && t == Two(Value(t))
  {
    ValueOfTwo(t);
    Decimals(0, 0, t[0] - 48, t[1] - 48);
  }

  lemma FourDigits(t: Text)
    requires |t| == 4 && AllDigits(t)
    ensures Value(t) < 10000 && t == Four(Value(t))
  {
    ValueOfFour(t);
    Decimals(t[0] - 48, t[1] - 48, t[2] - 48, t[3] - 48);
  }

  /** The digits that write a number have it as their value. */
  lemma TwoValue(n: nat)
    requires n < 100
    ensures AllDigits(Two(n)) && Value(Two(n)) == n
  {
    ValueOfTwo(Two(n));
  }

  lemma FourValue(n: nat)
    requires n < 10000
    ensures AllDigits(Four(n)) && Value(Four(n)) == n
  {
    Recomposed(n);
    ValueOfFour(Four(n));
  }

  /** The parts of the head. */
  lemma HeadParts(m: Moment)
    requires m.IsWritable()
    ensures var h := Head(m);
      && h[..4] == Four(m.year) && h[5..7] == Two(m.month) && h[8..10] == Two(m.day)
      && h[11..13] == Two(m.hour) && h[14..16] == Two(m.minute) && h[17..19] == Two(m.second)
  {
    var h := Head(m);
    assert h[..4] == [h[0], h[1], h[2], h[3]];
    assert h[5..7] == [h[5], h[6]] && h[8..10] == [h[8], h[9]] && h[11..13] == [h[11], h[12]];
    assert h[14..16] == [h[14], h[15]] && h[17..19] == [h[17], h[18]];
  }

  lemma WrittenParts(m: Moment, f: Text)
    requires m.IsWritable() && IsFraction(f)
    ensures var t := Written(m, f);
      && |t| == 20 + |f| && t[19..|t| - 1] == f && t[|t| - 1] == 'Z' as int
      && t[..4] == Four(m.year) && t[5..7] == Two(m.month) && t[8..10] == Two(m.day)
      && t[11..13] == Two(m.hour) && t[14..16] == Two(m.minute) && t[17..19] == Two(m.second)
      && t[4] == DASH && t[7] == DASH && t[10] == LETTER_T && t[13] == COLON && t[16] == COLON
  {
    HeadParts(m);
    var t, h := Written(m, f), Head(m);
    assert t[..19] == h;
    assert t[..4] == h[..4] && t[5..7] == h[5..7] && t[8..10] == h[8..10];
    assert t[11..13] == h[11..13] && t[14..16] == h[14..16] && t[17..19] == h[17..19];
  }

  /** What is written matches the pattern and is read back. */
  lemma WrittenIsRead(m: Moment, f: Text)
    requires m.IsWritable() && IsFraction(f)
    ensures MatchesIso(Written(m, f))
    ensures Read(Written(m, f)) == Components(m.year, m.month - 1, m.day, m.hour, m.minute, m.second)
  {
    var t := Written(m, f);
    WrittenParts(m, f);
    FourValue(m.year); TwoValue(m.month); TwoValue(m.day); TwoValue(m.hour); TwoValue(m.minute); TwoValue(m.second);
    if f != [] { assert t[19] == t[19..|t| - 1][0] && t[20..|t| - 1] == f[1..]; }
  }

  /** A date and time written digit by digit is a timestamp exactly when it is real and of the year 100 or later. */
  lemma WrittenIsTimestamp(m: Moment, f: Text)
    requires m.IsWritable() && IsFraction(f)
    ensures IsTimestamp(Written(m, f)) <==> IsReal(m) && m.year >= 100
  {
    WrittenIsRead(m, f);
    TimestampIsCalendarDate(Written(m, f));
    if 1 <= m.month <= 12 { LengthIs(m.year, m.month); }
  }

  // ---------- from digits to numbers ----------

  ghost predicate IsWrittenAs(t: Text, m: Moment, f: Text) {
    m.IsWritable() && IsFraction(f) && t == Written(m, f)
  }

  lemma FractionOf(t: Text)
    requires MatchesIso(t)
    ensures IsFraction(t[19..|t| - 1])
  {
    var f := t[19..|t| - 1];
    if |t| > 20 {
      forall i | 1 <= i < |f| ensures IsDigit(f[i]) { assert f[i] == t[20..|t| - 1][i - 1]; }
    }
  }

  lemma HeadOf(t: Text, m: Moment)
    requires MatchesIso(t) && m.IsWritable()
    requires t[..4] == Four(m.year) && t[5..7] == Two(m.month) && t[8..10] == Two(m.day)
    requires t[11..13] == Two(m.hour) && t[14..16] == Two(m.minute) && t[17..19] == Two(m.second)
    ensures t[..19] == Head(m)
  {
    assert t[..19] == t[..4] + [t[4]] + t[5..7] + [t[7]] + t[8..10] + [t[10]] + t[11..13] + [t[13]] + t[14..16] + [t[16]] + t[17..19];
  }

  /** Whatever matches the pattern is written that way. */
  lemma MatchIsWritten(t: Text) returns (m: Moment, f: Text)
    requires MatchesIso(t)
    ensures IsWrittenAs(t, m, f)
  {
    m := Moment(Value(t[..4]), Value(t[5..7]), Value(t[8..10]), Value(t[11..13]), Value(t[14..16]), Value(t[17..19]));
    f := t[19..|t| - 1];
    FourDigits(t[..4]); TwoDigits(t[5..7]); TwoDigits(t[8..10]); TwoDigits(t[11..13]); TwoDigits(t[14..16]); TwoDigits(t[17..19]);
    HeadOf(t, m);
    FractionOf(t);
    InThreeParts(t);
  }

  lemma InThreeParts(t: Text)
    requires |t| >= 20
    ensures t == t[..19] + t[19..|t| - 1] + [t[|t| - 1]]
  {
  }

  /** The timestamps are exactly the real dates and times from the year 100 on, written that way. */
  lemma TimestampIff(t: Text)
    ensures IsTimestamp(t) <==> exists m, f :: IsWrittenAs(t, m, f) && IsReal(m) && m.year >= 100
  {
    if IsTimestamp(t) {
      var m, f := MatchIsWritten(t);
      WrittenIsTimestamp(m, f);
    }
    forall m, f | IsWrittenAs(t, m, f) && IsReal(m) && m.year >= 100 ensures IsTimestamp(t) { WrittenIsTimestamp(m, f); }
  }

  const DECEMBER := Moment(2024, 12, 25, 10, 30, 0)

  lemma DecemberHead()
    ensures Head(DECEMBER) == [50, 48, 50, 52, 45, 49, 50, 45, 50, 53, 84, 49, 48, 58, 51, 48, 58, 48, 48]
  {
  }

  /** `2024-12-25T10:30:00Z` is a timestamp: the month comes before the day. */
  lemma December()
    ensures IsTimestamp([50, 48, 50, 52, 45, 49, 50, 45, 50, 53, 84, 49, 48, 58, 51, 48, 58, 48, 48] + [90])
  {
    WrittenIsTimestamp(DECEMBER, []);
    DecemberHead();
    assert Written(DECEMBER, []) == Head(DECEMBER) + [90];
  }
}

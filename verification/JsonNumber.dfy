/** Finite JavaScript numbers and their JSON text.

A finite number is identified with the decimal that `Number::toString` (section 6.1.6.1.20 of
ECMA-262) selects for it: a sign, the shortest digits and the position of the decimal point.  -0
prints like 0 and is identified with it.  Reading follows the number grammar in section 6 of
RFC 8259 and keeps the exact decimal, with no rounding to a double.
*/
module JsonNumber {
  import opened Options
  import opened Utf16

  type Digit = d: int | 0 <= d < 10

  /** `Decimal(neg, d1..dk, n)` is ±0.d1..dk × 10^n. */
  datatype Decimal = Zero | Decimal(negative: bool, digits: seq<Digit>, point: int) {
    /** The digits are as few as possible, so each value has one representation. */
    predicate Shortest() {
      Decimal? ==> digits != [] && digits[0] != 0 && digits[|digits| - 1] != 0
    }
  }

  type Finite = d: Decimal | d.Shortest() witness Zero

  const MINUS: CodeUnit := 45
  const PLUS: CodeUnit := 43
  const POINT: CodeUnit := 46
  const EXPONENT: CodeUnit := 101

  predicate IsDigit(c: CodeUnit) { 48 <= c <= 57 }

  predicate IsAscii(t: Text) { forall i :: 0 <= i < |t| ==> t[i] < 128 }

  function Zeros(n: nat): (z: seq<Digit>)
    ensures |z| == n && forall i :: 0 <= i < n ==> z[i] == 0
  {
    if n == 0 then [] else [0] + Zeros(n - 1)
  }

  function DigitText(ds: seq<Digit>): (t: Text)
    ensures |t| == |ds|
  {
    if ds == [] then [] else [ds[0] as int + 48] + DigitText(ds[1..])
  }

  /** The decimal digits of a natural number, at least one. */
  function NatDigits(n: nat): (ds: seq<Digit>)
    ensures ds != []
  {
    if n < 10 then [n] else NatDigits(n / 10) + [n % 10]
  }

  function NatValue(ds: seq<Digit>): nat {
    if ds == [] then 0 else NatValue(ds[..|ds| - 1]) * 10 + ds[|ds| - 1]
  }

  function ExponentText(e: int): Text {
    [EXPONENT, if e < 0 then MINUS else PLUS] + DigitText(NatDigits(if e < 0 then -e else e))
  }

  function PrintUnsigned(ds: seq<Digit>, n: int): (t: Text)
    requires ds != []
    ensures t != [] && IsDigit(t[0])
  {
    var k := |ds|;
    if k <= n <= 21 then DigitText(ds + Zeros(n - k))
    else if 0 < n <= 21 then DigitText(ds[..n]) + [POINT] + DigitText(ds[n..])
    else if -6 < n <= 0 then DigitText([0]) + [POINT] + DigitText(Zeros(-n) + ds)
    else if k == 1 then DigitText(ds) + ExponentText(n - 1)
    else DigitText(ds[..1]) + [POINT] + DigitText(ds[1..]) + ExponentText(n - 1)
  }

  /** `JSON.stringify` of a finite number. */
  function Print(d: Finite): (t: Text)
    ensures t != [] && (IsDigit(t[0]) || t[0] == MINUS)
  {
    if d.Zero? then [48]
    else (if d.negative then [MINUS] else []) + PrintUnsigned(d.digits, d.point)
  }

  // ---------- reading ----------

  /** The longest run of digits at the front of `t`, and what follows it. */
  function TakeDigits(t: Text): (r: (seq<Digit>, Text))
    ensures |r.0| + |r.1| == |t|
  {
    if t != [] && IsDigit(t[0]) then
      var (ds, rest) := TakeDigits(t[1..]);
      ([t[0] - 48] + ds, rest)
    else ([], t)
  }

  /** The shortest decimal equal to 0.ds × 10^point. */
  function Normalize(negative: bool, ds: seq<Digit>, point: int): (d: Finite)
    decreases |ds|
  {
    if ds == [] then Zero
    else if ds[0] == 0 then Normalize(negative, ds[1..], point - 1)
    else if ds[|ds| - 1] == 0 then Normalize(negative, ds[..|ds| - 1], point)
    else Decimal(negative, ds, point)
  }

  function ReadFraction(t: Text): (r: Option<(seq<Digit>, Text)>)
    ensures r.Some? ==> |r.value.1| <= |t|
  {
    if t != [] && t[0] == POINT then
      var (ds, rest) := TakeDigits(t[1..]);
      if ds == [] then None else Some((ds, rest))
    else Some(([], t))
  }

  function ReadExponent(t: Text): (r: Option<(int, Text)>)
    ensures r.Some? ==> |r.value.1| <= |t|
  {
    if t != [] && (t[0] == EXPONENT || t[0] == 69) then
      var signed := |t| > 1 && (t[1] == MINUS || t[1] == PLUS);
      var (ds, rest) := TakeDigits(if signed then t[2..] else t[1..]);
      if ds == [] then None
      else Some((if signed && t[1] == MINUS then 0 - NatValue(ds) as int else NatValue(ds) as int, rest))
    else Some((0, t))
  }

  function ReadUnsigned(negative: bool, t: Text): (r: Option<(Finite, Text)>)
    ensures r.Some? ==> |r.value.1| < |t|
  {
    var (whole, afterWhole) := TakeDigits(t);
    if whole == [] || (whole[0] == 0 && |whole| > 1) then None else ReadAfter(negative, whole, afterWhole)
  }

  /** The optional fraction and exponent after the integer part. */
  function ReadAfter(negative: bool, whole: seq<Digit>, t: Text): (r: Option<(Finite, Text)>)
    ensures r.Some? ==> |r.value.1| <= |t|
  {
    var (fraction, afterFraction) :- ReadFraction(t);
    var (e, rest) :- ReadExponent(afterFraction);
    Some((Normalize(negative, whole + fraction, |whole| + e), rest))
  }

  function Read(t: Text): (r: Option<(Finite, Text)>)
    ensures r.Some? ==> |r.value.1| < |t|
  {
    if t != [] && t[0] == MINUS then ReadUnsigned(true, t[1..]) else ReadUnsigned(false, t)
  }

  // ---------- properties ----------

  /** `t` cannot continue a number that ends just before it. */
  predicate EndsNumber(t: Text) {
    t == [] || (!IsDigit(t[0]) && t[0] != POINT && t[0] != EXPONENT && t[0] != 69)
  }

  lemma {:induction false} TakeDigitText(ds: seq<Digit>, rest: Text)
    requires rest == [] || !IsDigit(rest[0])
    ensures TakeDigits(DigitText(ds) + rest) == (ds, rest)
  {
    if ds == [] {
      assert DigitText(ds) + rest == rest;
    } else {
      var u := DigitText(ds[1..]);
      TakeDigitText(ds[1..], rest);
      Associative([ds[0] as int + 48], u, rest);
      assert ([ds[0] as int + 48] + (u + rest))[1..] == u + rest;
      assert ds == [ds[0]] + ds[1..];
    }
  }

  lemma {:induction false} NatRoundTrip(n: nat)
    ensures NatValue(NatDigits(n)) == n
  {
    if n >= 10 {
      NatRoundTrip(n / 10);
      var ds := NatDigits(n);
      assert ds[..|ds| - 1] == NatDigits(n / 10);
    }
  }

  lemma ReadSignedExponent(sign: CodeUnit, ds: seq<Digit>, rest: Text)
    requires ds != [] && EndsNumber(rest) && (sign == MINUS || sign == PLUS)
    ensures ReadExponent([EXPONENT, sign] + (DigitText(ds) + rest))
         == Some((if sign == MINUS then 0 - NatValue(ds) else NatValue(ds), rest))
  {
    var u := DigitText(ds) + rest;
    TakeDigitText(ds, rest);
    SignedExponent(sign, u, ds, rest);
  }

  lemma SignedExponent(sign: CodeUnit, u: Text, ds: seq<Digit>, rest: Text)
    requires ds != [] && TakeDigits(u) == (ds, rest) && (sign == MINUS || sign == PLUS)
    ensures ReadExponent([EXPONENT, sign] + u) == Some((if sign == MINUS then 0 - NatValue(ds) else NatValue(ds), rest))
  {
    var t := [EXPONENT, sign] + u;
    assert t[2..] == u && t[0] == EXPONENT && t[1] == sign && |t| > 1;
  }

  lemma ReadExponentText(e: int, rest: Text)
    requires EndsNumber(rest)
    ensures ReadExponent(ExponentText(e) + rest) == Some((e, rest))
  {
    var n := if e < 0 then -e else e;
    NatRoundTrip(n);
    ReadSignedExponent(if e < 0 then MINUS else PLUS, NatDigits(n), rest);
    Associative([EXPONENT, if e < 0 then MINUS else PLUS], DigitText(NatDigits(n)), rest);
  }

  lemma {:induction false} NormalizeLeadingZeros(negative: bool, n: nat, ds: seq<Digit>, point: int)
    requires Decimal(negative, ds, point).Shortest()
    ensures Normalize(negative, Zeros(n) + ds, point + n) == Decimal(negative, ds, point)
  {
    if n == 0 {
      assert Zeros(n) + ds == ds;
    } else {
      NormalizeLeadingZeros(negative, n - 1, ds, point);
      assert (Zeros(n) + ds)[1..] == Zeros(n - 1) + ds;
    }
  }

  lemma {:induction false} NormalizeTrailingZeros(negative: bool, ds: seq<Digit>, n: nat, point: int)
    requires Decimal(negative, ds, point).Shortest()
    ensures Normalize(negative, ds + Zeros(n), point) == Decimal(negative, ds, point)
  {
    if n == 0 {
      assert ds + Zeros(n) == ds;
    } else {
      NormalizeTrailingZeros(negative, ds, n - 1, point);
      var z := ds + Zeros(n);
      assert z[..|z| - 1] == ds + Zeros(n - 1);
    }
  }

  lemma ReadFractionText(fraction: seq<Digit>, tail: Text)
    requires tail == [] || !IsDigit(tail[0])
    requires fraction != []
    ensures ReadFraction([POINT] + (DigitText(fraction) + tail)) == Some((fraction, tail))
  {
    TakeDigitText(fraction, tail);
    assert ([POINT] + (DigitText(fraction) + tail))[1..] == DigitText(fraction) + tail;
  }

  /** Assembling a number from its integer part, fraction and exponent. */
  lemma ReadParts(negative: bool, whole: seq<Digit>, mid: Text, fraction: seq<Digit>, tail: Text, e: int, rest: Text)
    requires whole != [] && (whole[0] == 0 ==> |whole| == 1)
    requires mid == [] || !IsDigit(mid[0])
    requires ReadFraction(mid) == Some((fraction, tail))
    requires ReadExponent(tail) == Some((e, rest))
    ensures ReadUnsigned(negative, DigitText(whole) + mid)
         == Some((Normalize(negative, whole + fraction, |whole| + e), rest))
  {
    TakeDigitText(whole, mid);
    ReadSplit(negative, DigitText(whole) + mid, whole, mid, fraction, tail, e, rest);
  }

  lemma ReadSplit(negative: bool, t: Text, whole: seq<Digit>, mid: Text, fraction: seq<Digit>, tail: Text, e: int, rest: Text)
    requires TakeDigits(t) == (whole, mid) && whole != [] && (whole[0] == 0 ==> |whole| == 1)
    requires ReadFraction(mid) == Some((fraction, tail)) && ReadExponent(tail) == Some((e, rest))
    ensures ReadUnsigned(negative, t) == Some((Normalize(negative, whole + fraction, |whole| + e), rest))
  {
    ReadAfterWhole(negative, whole, mid, fraction, tail, e, rest);
  }

  lemma ReadAfterWhole(negative: bool, whole: seq<Digit>, mid: Text, fraction: seq<Digit>, tail: Text, e: int, rest: Text)
    requires ReadFraction(mid) == Some((fraction, tail)) && ReadExponent(tail) == Some((e, rest))
    ensures ReadAfter(negative, whole, mid) == Some((Normalize(negative, whole + fraction, |whole| + e), rest))
  {
  }

  /** The printed forms, each followed by text that is already known to read as exponent `e`. */
  lemma ReadWhole(negative: bool, whole: seq<Digit>, tail: Text, e: int, rest: Text)
    requires whole != [] && (whole[0] == 0 ==> |whole| == 1)
    requires tail == [] || (!IsDigit(tail[0]) && tail[0] != POINT)
    requires ReadExponent(tail) == Some((e, rest))
    ensures ReadUnsigned(negative, DigitText(whole) + tail) == Some((Normalize(negative, whole, |whole| + e), rest))
  {
    ReadParts(negative, whole, tail, [], tail, e, rest);
    assert whole + [] == whole;
  }

  lemma ReadPointed(negative: bool, whole: seq<Digit>, fraction: seq<Digit>, tail: Text, e: int, rest: Text)
    requires whole != [] && (whole[0] == 0 ==> |whole| == 1) && fraction != []
    requires tail == [] || !IsDigit(tail[0])
    requires ReadExponent(tail) == Some((e, rest))
    ensures ReadUnsigned(negative, DigitText(whole) + [POINT] + DigitText(fraction) + tail)
         == Some((Normalize(negative, whole + fraction, |whole| + e), rest))
  {
    var mid := [POINT] + (DigitText(fraction) + tail);
    ReadFractionText(fraction, tail);
    ReadParts(negative, whole, mid, fraction, tail, e, rest);
    Associative(DigitText(whole) + [POINT], DigitText(fraction), tail);
    Associative(DigitText(whole), [POINT], DigitText(fraction) + tail);
  }

  lemma OneDigitRoundTrip(negative: bool, ds: seq<Digit>, n: int, rest: Text)
    requires Decimal(negative, ds, n).Shortest() && EndsNumber(rest) && |ds| == 1
    ensures ReadUnsigned(negative, DigitText(ds) + ExponentText(n - 1) + rest) == Some((Decimal(negative, ds, n), rest))
  {
    ReadExponentText(n - 1, rest);
    ReadWhole(negative, ds, ExponentText(n - 1) + rest, n - 1, rest);
    Associative(DigitText(ds), ExponentText(n - 1), rest);
  }

  lemma ManyDigitsRoundTrip(negative: bool, ds: seq<Digit>, n: int, rest: Text)
    requires Decimal(negative, ds, n).Shortest() && EndsNumber(rest) && |ds| > 1
    ensures ReadUnsigned(negative, DigitText(ds[..1]) + [POINT] + DigitText(ds[1..]) + ExponentText(n - 1) + rest)
         == Some((Decimal(negative, ds, n), rest))
  {
    var whole, fraction := ds[..1], ds[1..];
    assert whole + fraction == ds;
    ReadExponentText(n - 1, rest);
    ReadPointed(negative, whole, fraction, ExponentText(n - 1) + rest, n - 1, rest);
    Associative(DigitText(whole) + [POINT] + DigitText(fraction), ExponentText(n - 1), rest);
  }

  lemma IntegerRoundTrip(negative: bool, ds: seq<Digit>, n: int, rest: Text)
    requires Decimal(negative, ds, n).Shortest() && EndsNumber(rest) && |ds| <= n
    ensures ReadUnsigned(negative, DigitText(ds + Zeros(n - |ds|)) + rest) == Some((Decimal(negative, ds, n), rest))
  {
    ReadWhole(negative, ds + Zeros(n - |ds|), rest, 0, rest);
    NormalizeTrailingZeros(negative, ds, n - |ds|, n);
  }

  lemma MixedRoundTrip(negative: bool, ds: seq<Digit>, n: int, rest: Text)
    requires Decimal(negative, ds, n).Shortest() && EndsNumber(rest) && 0 < n < |ds|
    ensures ReadUnsigned(negative, DigitText(ds[..n]) + [POINT] + DigitText(ds[n..]) + rest)
         == Some((Decimal(negative, ds, n), rest))
  {
    var whole, fraction := ds[..n], ds[n..];
    assert whole + fraction == ds;
    ReadPointed(negative, whole, fraction, rest, 0, rest);
    NormalizeShortest(negative, ds, n);
  }

  lemma NormalizeShortest(negative: bool, ds: seq<Digit>, n: int)
    requires Decimal(negative, ds, n).Shortest()
    ensures Normalize(negative, ds, n) == Decimal(negative, ds, n)
  {
  }

  lemma SmallRoundTrip(negative: bool, ds: seq<Digit>, n: int, rest: Text)
    requires Decimal(negative, ds, n).Shortest() && EndsNumber(rest) && n <= 0
    ensures ReadUnsigned(negative, DigitText([0]) + [POINT] + DigitText(Zeros(-n) + ds) + rest)
         == Some((Decimal(negative, ds, n), rest))
  {
    var fraction := Zeros(-n) + ds;
    ReadPointed(negative, [0], fraction, rest, 0, rest);
    NormalizeLeadingZeros(negative, 1 - n, ds, n);
    assert [0] + fraction == Zeros(1 - n) + ds;
  }

  lemma UnsignedRoundTrip(negative: bool, ds: seq<Digit>, n: int, rest: Text)
    requires Decimal(negative, ds, n).Shortest() && EndsNumber(rest)
    ensures ReadUnsigned(negative, PrintUnsigned(ds, n) + rest) == Some((Decimal(negative, ds, n), rest))
  {
    if |ds| <= n <= 21 { IntegerRoundTrip(negative, ds, n, rest); }
    else if 0 < n <= 21 { MixedRoundTrip(negative, ds, n, rest); }
    else if -6 < n <= 0 { SmallRoundTrip(negative, ds, n, rest); }
    else if |ds| == 1 { OneDigitRoundTrip(negative, ds, n, rest); }
    else { ManyDigitsRoundTrip(negative, ds, n, rest); }
  }

  /** Reading a printed number gives the number back. */
  lemma NumberRoundTrip(d: Finite, rest: Text)
    requires EndsNumber(rest)
    ensures Read(Print(d) + rest) == Some((d, rest))
  {
    if d.Zero? {
      assert Print(d) == DigitText([0]);
      ReadWhole(false, [0], rest, 0, rest);
    } else {
      UnsignedRoundTrip(d.negative, d.digits, d.point, rest);
      var u := PrintUnsigned(d.digits, d.point);
      if d.negative {
        Associative([MINUS], u, rest);
        assert ([MINUS] + (u + rest))[1..] == u + rest;
      } else {
        assert Print(d) == u;
      }
    }
  }

  // ---------- printed numbers are ASCII ----------

  lemma {:induction false} DigitTextIsAscii(ds: seq<Digit>)
    ensures IsAscii(DigitText(ds))
  {
    if ds != [] { DigitTextIsAscii(ds[1..]); }
  }

  lemma ConcatIsAscii(a: Text, b: Text)
    requires IsAscii(a) && IsAscii(b)
    ensures IsAscii(a + b)
  {
  }

  lemma PointedIsAscii(whole: seq<Digit>, fraction: seq<Digit>)
    ensures IsAscii(DigitText(whole) + [POINT] + DigitText(fraction))
  {
    DigitTextIsAscii(whole);
    DigitTextIsAscii(fraction);
    ConcatIsAscii(DigitText(whole), [POINT]);
    ConcatIsAscii(DigitText(whole) + [POINT], DigitText(fraction));
  }

  lemma ScientificIsAscii(t: Text, e: int)
    requires IsAscii(t)
    ensures IsAscii(t + ExponentText(e))
  {
    var ds := NatDigits(if e < 0 then -e else e);
    DigitTextIsAscii(ds);
    ConcatIsAscii([EXPONENT, if e < 0 then MINUS else PLUS], DigitText(ds));
    ConcatIsAscii(t, ExponentText(e));
  }

  lemma UnsignedIsAscii(ds: seq<Digit>, n: int)
    requires ds != []
    ensures IsAscii(PrintUnsigned(ds, n))
  {
    if |ds| <= n <= 21 { DigitTextIsAscii(ds + Zeros(n - |ds|)); }
    else if 0 < n <= 21 { PointedIsAscii(ds[..n], ds[n..]); }
    else if -6 < n <= 0 { PointedIsAscii([0], Zeros(-n) + ds); }
    else if |ds| == 1 { DigitTextIsAscii(ds); ScientificIsAscii(DigitText(ds), n - 1); }
    else {
      PointedIsAscii(ds[..1], ds[1..]);
      ScientificIsAscii(DigitText(ds[..1]) + [POINT] + DigitText(ds[1..]), n - 1);
    }
  }

  lemma PrintIsWellFormed(d: Finite)
    ensures WellFormed(Print(d))
  {
    if d.Decimal? {
      UnsignedIsAscii(d.digits, d.point);
      ConcatIsAscii(if d.negative then [MINUS] else [], PrintUnsigned(d.digits, d.point));
    }
    PlainIsWellFormed(Print(d));
  }

  // ---------- integers ----------

  /** The number an integer is. */
  function OfInt(n: int): Finite {
    var ds := NatDigits(if n < 0 then -n else n);
    Normalize(n < 0, ds, |ds|)
  }

  /** The integer a number is, for a number without a fraction. */
  function ToInt(d: Finite): int {
    if d.Zero? || d.point < |d.digits| then 0
    else
      var n := NatValue(d.digits + Zeros(d.point - |d.digits|));
      if d.negative then -(n as int) else n
  }

  lemma {:induction false} LeadingDigit(n: nat)
    ensures n > 0 ==> NatDigits(n)[0] != 0
    ensures n == 0 ==> NatDigits(n) == [0]
  {
    if n >= 10 { LeadingDigit(n / 10); }
  }

  lemma {:induction false} NormalizeStripsZeros(negative: bool, ds: seq<Digit>, point: int)
    requires ds != [] && ds[0] != 0
    ensures var d := Normalize(negative, ds, point);
      && d.Decimal? && d.negative == negative && d.point == point && |d.digits| <= |ds|
      && ds == d.digits + Zeros(|ds| - |d.digits|)
    decreases |ds|
  {
    if ds[|ds| - 1] == 0 {
      var init := ds[..|ds| - 1];
      assert ds == init + [0] && init != [] && init[0] == ds[0];
      NormalizeStripsZeros(negative, init, point);
      var d := Normalize(negative, init, point);
      OneMoreZero(ds, init, d.digits, |init| - |d.digits|);
    } else {
      assert Zeros(0) == [] && ds + [] == ds;
    }
  }

  lemma OneMoreZero(ds: seq<Digit>, init: seq<Digit>, digits: seq<Digit>, k: nat)
    requires ds == init + [0] && init == digits + Zeros(k)
    ensures ds == digits + Zeros(k + 1)
  {
    assert Zeros(k + 1) == Zeros(k) + [0];
  }

  /** Every integer is read back from its number, so different integers have different numbers. */
  lemma IntRoundTrip(n: int)
    ensures ToInt(OfInt(n)) == n
  {
    var m := if n < 0 then -n else n;
    var ds := NatDigits(m);
    LeadingDigit(m);
    NatRoundTrip(m);
    if n == 0 {
      assert ds[1..] == [];
      assert Normalize(false, ds, 1) == Normalize(false, ds[1..], 0);
    } else {
      NormalizeStripsZeros(n < 0, ds, |ds|);
    }
  }

  /** The text of an integer, followed by anything that ends a number, reads back as that integer. */
  lemma PrintedIntRoundTrip(n: int, rest: Text)
    requires EndsNumber(rest)
    ensures Read(Print(OfInt(n)) + rest) == Some((OfInt(n), rest)) && ToInt(OfInt(n)) == n
  {
    NumberRoundTrip(OfInt(n), rest);
    IntRoundTrip(n);
  }
}

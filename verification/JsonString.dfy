/** JSON string literals: the quoting of `JSON.stringify` (QuoteJSONString, section 25.5.2.3 of
ECMA-262) and a reader of the string grammar in section 7 of RFC 8259. */
module JsonString {
  import opened Options
  import opened Utf16

  const QUOTE: CodeUnit := 34
  const BACKSLASH: CodeUnit := 92

  function HexDigit(n: int): CodeUnit
    requires 0 <= n < 16
  {
    if n < 10 then 48 + n else 87 + n
  }

  function UnicodeEscape(c: CodeUnit): Text {
    [BACKSLASH, 117, HexDigit(c / 4096), HexDigit(c / 256 % 16), HexDigit(c / 16 % 16), HexDigit(c % 16)]
  }

  /** One code unit that does not start a surrogate pair. */
  function QuoteUnit(c: CodeUnit): Text {
    if c == 8 then [BACKSLASH, 98]
    else if c == 9 then [BACKSLASH, 116]
    else if c == 10 then [BACKSLASH, 110]
    else if c == 12 then [BACKSLASH, 102]
    else if c == 13 then [BACKSLASH, 114]
    else if c == QUOTE || c == BACKSLASH then [BACKSLASH, c]
    else if c < 32 || IsHigh(c) || IsLow(c) then UnicodeEscape(c)
    else [c]
  }

  function QuoteBody(s: Text): Text {
    if s == [] then []
    else if StartsPair(s) then s[..2] + QuoteBody(s[2..])
    else QuoteUnit(s[0]) + QuoteBody(s[1..])
  }

  /** `JSON.stringify` of a string. */
  function Quote(s: Text): Text { [QUOTE] + (QuoteBody(s) + [QUOTE]) }

  // ---------- reading ----------

  function HexValue(c: CodeUnit): Option<int> {
    if 48 <= c <= 57 then Some(c - 48)
    else if 97 <= c <= 102 then Some(c - 87)
    else if 65 <= c <= 70 then Some(c - 55)
    else None
  }

  function ReadHex(t: Text): (r: Option<CodeUnit>)
    requires |t| == 4
  {
    var a :- HexValue(t[0]);
    var b :- HexValue(t[1]);
    var c :- HexValue(t[2]);
    var d :- HexValue(t[3]);
    var n := ((a * 16 + b) * 16 + c) * 16 + d;
    if 0 <= n < 0x1_0000 then Some(n) else None
  }

  /** Reads one escape sequence; `t` starts at the backslash. */
  function ReadEscape(t: Text): (r: Option<(CodeUnit, Text)>)
    requires |t| > 0
    ensures r.Some? ==> |r.value.1| < |t|
  {
    if |t| < 2 then None
    else if t[1] == QUOTE || t[1] == BACKSLASH || t[1] == 47 then Some((t[1], t[2..]))
    else if t[1] == 98 then Some((8, t[2..]))
    else if t[1] == 102 then Some((12, t[2..]))
    else if t[1] == 110 then Some((10, t[2..]))
    else if t[1] == 114 then Some((13, t[2..]))
    else if t[1] == 116 then Some((9, t[2..]))
    else if t[1] == 117 && |t| >= 6 then
      var c :- ReadHex(t[2..6]);
      Some((c, t[6..]))
    else None
  }

  /** Reads up to and including the closing quote; answers the decoded units and what follows. */
  function ReadBody(t: Text): (r: Option<(Text, Text)>)
    ensures r.Some? ==> |r.value.1| < |t|
    decreases |t|
  {
    if t == [] || t[0] < 32 then None
    else if t[0] == QUOTE then Some(([], t[1..]))
    else if t[0] == BACKSLASH then
      var (c, rest) :- ReadEscape(t);
      var (s, after) :- ReadBody(rest);
      Some(([c] + s, after))
    else
      var (s, after) :- ReadBody(t[1..]);
      Some(([t[0]] + s, after))
  }

  // ---------- properties ----------

  lemma HexDigitRoundTrip(n: int)
    requires 0 <= n < 16
    ensures HexValue(HexDigit(n)) == Some(n)
  {
  }

  lemma HexRoundTrip(c: CodeUnit)
    ensures ReadHex(UnicodeEscape(c)[2..6]) == Some(c)
  {
    var a, b := c / 16, c / 256;
    var e := UnicodeEscape(c)[2..6];
    assert c == 16 * a + c % 16 && a == 16 * (a / 16) + a % 16 && b == 16 * (b / 16) + b % 16;
    assert a / 16 == b && b / 16 == c / 4096;
    HexDigitRoundTrip(c / 4096);
    HexDigitRoundTrip(b % 16);
    HexDigitRoundTrip(a % 16);
    HexDigitRoundTrip(c % 16);
    assert e == [HexDigit(c / 4096), HexDigit(b % 16), HexDigit(a % 16), HexDigit(c % 16)];
  }

  /** What reading answers when `c` is read first and `r` was read after it. */
  function Prepend(c: CodeUnit, r: Option<(Text, Text)>): Option<(Text, Text)> {
    if r.None? then None else Some(([c] + r.value.0, r.value.1))
  }

  /** An unescaped unit is read as itself. */
  lemma ReadPlainUnit(c: CodeUnit, tail: Text)
    requires c >= 32 && c != QUOTE && c != BACKSLASH
    ensures ReadBody([c] + tail) == Prepend(c, ReadBody(tail))
  {
    assert ([c] + tail)[1..] == tail;
  }

  lemma ReadShortEscape(c: CodeUnit, letter: CodeUnit, tail: Text)
    requires ReadEscape([BACKSLASH, letter] + tail) == Some((c, tail))
    ensures ReadBody([BACKSLASH, letter] + tail) == Prepend(c, ReadBody(tail))
  {
  }

  lemma ReadUnicodeEscape(c: CodeUnit, tail: Text)
    ensures ReadBody(UnicodeEscape(c) + tail) == Prepend(c, ReadBody(tail))
  {
    var e := UnicodeEscape(c);
    var t := e + tail;
    assert t[2..6] == e[2..6] && t[6..] == tail;
    HexRoundTrip(c);
    assert ReadEscape(t) == Some((c, tail));
  }

  /** Reading one quoted unit and going on gives that unit first. */
  lemma ReadQuotedUnit(c: CodeUnit, tail: Text)
    ensures ReadBody(QuoteUnit(c) + tail) == Prepend(c, ReadBody(tail))
  {
    var q := QuoteUnit(c);
    if |q| == 1 {
      ReadPlainUnit(c, tail);
    } else if |q| == 2 {
      assert (q + tail)[2..] == tail;
      assert q == [BACKSLASH, q[1]];
      ReadShortEscape(c, q[1], tail);
    } else {
      ReadUnicodeEscape(c, tail);
    }
  }

  /** A surrogate pair is copied verbatim and read back verbatim. */
  lemma ReadPair(a: CodeUnit, b: CodeUnit, tail: Text)
    requires IsHigh(a) && IsLow(b)
    ensures ReadBody([a, b] + tail) == Prepend(a, Prepend(b, ReadBody(tail)))
  {
    ReadPlainUnit(b, tail);
    ReadPlainUnit(a, [b] + tail);
    assert [a, b] + tail == [a] + ([b] + tail);
  }

  /** The reader is a left inverse of the quoting, for every string and whatever follows it. */
  lemma {:induction false} QuoteRoundTrip(s: Text, rest: Text)
    ensures ReadBody(QuoteBody(s) + ([QUOTE] + rest)) == Some((s, rest))
  {
    var end := [QUOTE] + rest;
    if s == [] {
      assert QuoteBody(s) + end == end && end[1..] == rest;
    } else if StartsPair(s) {
      var a, b, u := s[0], s[1], s[2..];
      assert s == [a] + ([b] + u) && s[..2] == [a, b];
      QuoteRoundTrip(u, rest);
      ReadPair(a, b, QuoteBody(u) + end);
      Associative([a, b], QuoteBody(u), end);
    } else {
      var c, u := s[0], s[1..];
      assert s == [c] + u;
      QuoteRoundTrip(u, rest);
      ReadQuotedUnit(c, QuoteBody(u) + end);
      Associative(QuoteUnit(c), QuoteBody(u), end);
    }
  }

  lemma {:induction false} QuoteBodyIsWellFormed(s: Text)
    ensures WellFormed(QuoteBody(s))
  {
    if s == [] {
    } else if StartsPair(s) {
      QuoteBodyIsWellFormed(s[2..]);
      assert QuoteBody(s)[2..] == QuoteBody(s[2..]);
    } else {
      QuoteBodyIsWellFormed(s[1..]);
      PlainIsWellFormed(QuoteUnit(s[0]));
      WellFormedConcat(QuoteUnit(s[0]), QuoteBody(s[1..]));
    }
  }

  /** Quoted text never contains a lone surrogate, even for a string that does. */
  lemma QuoteIsWellFormed(s: Text)
    ensures WellFormed(Quote(s))
  {
    QuoteBodyIsWellFormed(s);
    PlainIsWellFormed([QUOTE]);
    WellFormedConcat(QuoteBody(s), [QUOTE]);
    WellFormedConcat([QUOTE], QuoteBody(s) + [QUOTE]);
  }
}

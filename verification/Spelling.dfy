/** The exact text of JSON strings, unit by unit. */
module Spelling {
  import Options
  import opened Utf16
  import JsonString

  /** The digits of `\uXXXX`. */
  const HEX: Text := Ascii("0123456789abcdef")

  /** Copied as it is: no control, no quote, no backslash, no surrogate without its other half. */
  predicate IsPlain(s: Text, i: nat)
    requires i < |s|
  {
    s[i] >= 32 && s[i] != '\"' as int && s[i] != '\\' as int && PairedAt(s, i)
  }

  /** The escape of any unit. */
  function Escaped(c: CodeUnit): (t: Text)
    ensures |t| == 6
  {
    Ascii("\\u") + [HEX[c / 4096], HEX[c / 256 % 16], HEX[c / 16 % 16], HEX[c % 16]]
  }

  /** How unit `i` is spelled. */
  function SpelledAt(s: Text, i: nat): (t: Text)
    requires i < |s|
  {
    match s[i]
    case 8 => Ascii("\\b")
    case 9 => Ascii("\\t")
    case 10 => Ascii("\\n")
    case 12 => Ascii("\\f")
    case 13 => Ascii("\\r")
    case 34 => Ascii("\\\"")
    case 92 => Ascii("\\\\")
    case c => if IsPlain(s, i) then [c] else Escaped(c)
  }

  /** The units from the `i`-th on. */
  function SpelledFrom(s: Text, i: nat): Text
    requires i <= |s|
    decreases |s| - i
  {
    if i == |s| then [] else SpelledAt(s, i) + SpelledFrom(s, i + 1)
  }

  lemma UnitIsSpelled(s: Text, i: nat)
    requires i < |s| && !(IsHigh(s[i]) && i + 1 < |s| && IsLow(s[i + 1])) && (IsLow(s[i]) ==> !PairedAt(s, i))
    ensures JsonString.QuoteUnit(s[i]) == SpelledAt(s, i)
  {
    assert |HEX| == 16 && forall k :: 0 <= k < 16 ==> HEX[k] == "0123456789abcdef"[k] as int;
    assert forall k :: 0 <= k < 16 ==> JsonString.HexDigit(k) == HEX[k];
  }

  /** Position `i` does not stand inside a surrogate pair. */
  predicate IsWhole(s: Text, i: nat)
    requires i <= |s|
  {
    !(0 < i < |s| && IsHigh(s[i - 1]) && IsLow(s[i]))
  }

  lemma SpelledOne(s: Text, i: nat, rest: Text)
    requires i < |s| && IsPlain(s, i) && s[i] > 127 && SpelledFrom(s, i + 1) == rest
    ensures SpelledFrom(s, i) == [s[i]] + rest
  {
    assert SpelledAt(s, i) == [s[i]];
  }

  lemma PairIsPlain(s: Text, i: nat)
    requires i + 1 < |s| && IsHigh(s[i]) && IsLow(s[i + 1])
    ensures IsPlain(s, i) && IsPlain(s, i + 1) && s[i] > 127 && s[i + 1] > 127
  {
  }

  /** A surrogate pair is spelled as it is. */
  lemma PairIsSpelled(s: Text, i: nat, rest: Text)
    requires i + 1 < |s| && IsHigh(s[i]) && IsLow(s[i + 1]) && SpelledFrom(s, i + 2) == rest
    ensures SpelledFrom(s, i) == [s[i]] + ([s[i + 1]] + rest)
  {
    PairIsPlain(s, i);
    SpelledOne(s, i + 1, rest);
    SpelledOne(s, i, [s[i + 1]] + rest);
  }

  lemma QuotedPair(t: Text)
    requires StartsPair(t)
    ensures JsonString.QuoteBody(t) == [t[0]] + ([t[1]] + JsonString.QuoteBody(t[2..]))
  {
    assert t[..2] == [t[0]] + [t[1]];
    Associative([t[0]], [t[1]], JsonString.QuoteBody(t[2..]));
  }

  lemma {:induction false} BodyIsSpelled(s: Text, i: nat)
    requires i <= |s| && IsWhole(s, i)
    ensures JsonString.QuoteBody(s[i..]) == SpelledFrom(s, i)
    decreases |s| - i
  {
    if i == |s| {
    } else if StartsPair(s[i..]) {
      BodyIsSpelled(s, i + 2);
      assert s[i..][2..] == s[i + 2..];
      QuotedPair(s[i..]);
      PairIsSpelled(s, i, JsonString.QuoteBody(s[i + 2..]));
    } else {
      UnitIsSpelled(s, i);
      BodyIsSpelled(s, i + 1);
      assert s[i..][1..] == s[i + 1..];
    }
  }

  /** `JSON.stringify` of a string, unit by unit: the seven short escapes, `\uXXXX` in lower case for every other
  control and every lone surrogate, and everything else as it is. */
  lemma QuoteIsSpelled(s: Text)
    ensures JsonString.Quote(s) == [34] + (SpelledFrom(s, 0) + [34])
  {
    BodyIsSpelled(s, 0);
    assert s[0..] == s;
  }

  lemma {:induction false} PlainIsCopied(s: Text, i: nat)
    requires i <= |s|
    ensures |SpelledFrom(s, i)| >= |s| - i
    ensures SpelledFrom(s, i) == s[i..] <==> forall j :: i <= j < |s| ==> IsPlain(s, j)
    decreases |s| - i
  {
    if i < |s| {
      PlainIsCopied(s, i + 1);
      assert s[i..] == [s[i]] + s[i + 1..];
      if IsPlain(s, i) {
        assert SpelledFrom(s, i)[1..] == SpelledFrom(s, i + 1) && s[i..][1..] == s[i + 1..];
      } else {
        assert |SpelledAt(s, i)| >= 2;
      }
    }
  }

  /** A string is its own text between quotes exactly when it holds nothing that has to be escaped. */
  lemma UnescapedIffPlain(s: Text)
    ensures JsonString.Quote(s) == [34] + (s + [34]) <==> forall i :: 0 <= i < |s| ==> IsPlain(s, i)
  {
    QuoteIsSpelled(s);
    PlainIsCopied(s, 0);
    assert s[0..] == s;
    var t := JsonString.Quote(s);
    assert t[1..|t| - 1] == SpelledFrom(s, 0);
    assert ([34] + (s + [34]))[1..|s| + 1] == s;
  }

  /** Ordinary text needs no escape. */
  lemma OrdinaryIsCopied(s: Text)
    requires forall i :: 0 <= i < |s| ==> s[i] >= 32 && s[i] != 34 && s[i] != 92 && (s[i] < 0xD800 || s[i] > 0xDFFF)
    ensures JsonString.Quote(s) == [34] + (s + [34])
  {
    UnescapedIffPlain(s);
  }

  /** `\ud83d` and its like: the escape of a surrogate. */
  function SurrogateEscape(c: CodeUnit): Text
    requires 0xD800 <= c <= 0xDFFF
  {
    Ascii("\\ud") + [HEX[(c - 0xD000) / 256], HEX[(c - 0xD000) / 16 % 16], HEX[(c - 0xD000) % 16]]
  }

  lemma SurrogateDigits(c: int)
    requires 0xD800 <= c <= 0xDFFF
    ensures c / 4096 == 13 && c / 256 % 16 == (c - 0xD000) / 256 && c / 16 % 16 == (c - 0xD000) / 16 % 16 && c % 16 == (c - 0xD000) % 16
  {
    var d := c - 0xD000;
    assert c / 256 == 208 + d / 256;
    assert c / 16 == 3328 + d / 16;
  }

  lemma LoneIsEscaped(s: Text, i: nat)
    requires i < |s| && 0xD800 <= s[i] <= 0xDFFF && !PairedAt(s, i)
    ensures SpelledAt(s, i) == SurrogateEscape(s[i])
  {
    SurrogateDigits(s[i]);
    assert Ascii("\\ud") == Ascii("\\u") + [HEX[13]];
  }

  /** Two surrogates are copied when they are a high and a low one, and escaped otherwise. */
  lemma SurrogatesAre(a: CodeUnit, b: CodeUnit)
    requires 0xD800 <= a <= 0xDFFF && 0xD800 <= b <= 0xDFFF
    ensures JsonString.Quote([a, b]) == [34] + ((if a < 0xDC00 <= b then [a, b] else SurrogateEscape(a) + SurrogateEscape(b)) + [34])
  {
    var s := [a, b];
    QuoteIsSpelled(s);
    assert SpelledFrom(s, 2) == [] && SpelledFrom(s, 1) == SpelledAt(s, 1) && SpelledFrom(s, 0) == SpelledAt(s, 0) + SpelledAt(s, 1);
    if a < 0xDC00 <= b {
      assert SpelledAt(s, 0) == [a] && SpelledAt(s, 1) == [b];
    } else {
      LoneIsEscaped(s, 0);
      LoneIsEscaped(s, 1);
    }
  }

  // ---------- reading ----------

  /** The digits a reader takes as well. */
  const UPPER_HEX: Text := Ascii("0123456789ABCDEF")

  /** A hexadecimal digit of either case stands for its position, and nothing else is one. */
  lemma HexDigitsRead(c: CodeUnit, k: int)
    ensures JsonString.HexValue(c) == Options.Some(k) <==> 0 <= k < 16 && (c == HEX[k] || c == UPPER_HEX[k])
  {
    assert forall i :: 0 <= i < 16 ==> HEX[i] == "0123456789abcdef"[i] as int && UPPER_HEX[i] == "0123456789ABCDEF"[i] as int;
    assert forall i :: 0 <= i < 16 ==> HEX[i] == (if i < 10 then 48 + i else 87 + i) && UPPER_HEX[i] == (if i < 10 then 48 + i else 55 + i);
  }

  /** The short escapes: what each letter after a backslash stands for. */
  function ShortEscape(c: CodeUnit): Options.Option<CodeUnit> {
    match c
    case 34 => Options.Some(34)
    case 47 => Options.Some(47)
    case 92 => Options.Some(92)
    case 98 => Options.Some(8)
    case 102 => Options.Some(12)
    case 110 => Options.Some(10)
    case 114 => Options.Some(13)
    case 116 => Options.Some(9)
    case _ => Options.None
  }

  /** A reader takes the eight short escapes and no other letter but `u`. */
  lemma EscapesRead(c: CodeUnit, tail: Text)
    requires c != 'u' as int
    ensures JsonString.ReadEscape([92, c] + tail) ==
      if ShortEscape(c).None? then Options.None else Options.Some((ShortEscape(c).value, tail))
  {
    assert ([92, c] + tail)[2..] == tail;
  }

  /** A string does not hold a raw control. */
  lemma ControlsRefused(c: CodeUnit, tail: Text)
    requires c < 32
    ensures JsonString.ReadBody([c] + tail).None?
  {
  }
}

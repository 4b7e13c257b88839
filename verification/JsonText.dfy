/** The exact text of JSON values: literals, strings, numbers, and how an array and an object grow by one. */
module JsonText {
  import opened Options
  import opened Utf16
  import JsonNumber
  import JsonString
  import Json
  import Spelling

  lemma Literals()
    ensures Json.Print(Json.Null) == Ascii("null")
    ensures Json.Print(Json.Bool(true)) == Ascii("true") && Json.Print(Json.Bool(false)) == Ascii("false")
    ensures Json.Print(Json.Arr([])) == Ascii("[]") && Json.Print(Json.Obj(map[])) == Ascii("{}")
  {
    Json.PrintArray([]);
    Json.PrintObject(map[]);
  }

  /** A string is spelled unit by unit, between quotes. */
  lemma StringText(s: Text)
    ensures Json.Print(Json.Str(s)) == Ascii("\"") + (Spelling.SpelledFrom(s, 0) + Ascii("\""))
  {
    Spelling.QuoteIsSpelled(s);
  }

  // ---------- arrays and objects ----------

  lemma {:induction false} JoinGrows(parts: seq<Text>, last: Text)
    ensures Json.Join(parts + [last]) == Json.Join(parts) + ((if parts == [] then [] else Ascii(",")) + last)
  {
    var all := parts + [last];
    if parts == [] {
      assert all == [last];
    } else {
      JoinGrows(parts[1..], last);
      assert all[1..] == parts[1..] + [last] && all[0] == parts[0];
      if |parts| == 1 {
        assert all[1..] == [last];
      } else {
        var tail, more := Json.Join(parts[1..]), Ascii(",") + last;
        assert Json.Join(all) == parts[0] + ([Json.COMMA] + (tail + more));
        assert Json.Join(parts) + more == parts[0] + ([Json.COMMA] + (tail + more));
      }
    }
  }

  lemma BracketedGrows(open: CodeUnit, parts: seq<Text>, last: Text, close: CodeUnit)
    ensures var before := Json.Bracketed(open, parts, close);
      Json.Bracketed(open, parts + [last], close) == before[..|before| - 1] + ((if parts == [] then [] else Ascii(",")) + last) + [close]
  {
    JoinGrows(parts, last);
  }

  /** One more element: a comma unless it is the first, and its own text. */
  lemma ArrayGrows(items: seq<Json.Json>, last: Json.Json)
    ensures var before := Json.Print(Json.Arr(items));
      Json.Print(Json.Arr(items + [last])) ==
        before[..|before| - 1] + ((if items == [] then [] else Ascii(",")) + Json.Print(last)) + Ascii("]")
  {
    Json.PrintArray(items);
    Json.PrintArray(items + [last]);
    assert Json.ItemParts(items + [last]) == Json.ItemParts(items) + [Json.Print(last)];
    BracketedGrows(Json.OPEN_ARRAY, Json.ItemParts(items), Json.Print(last), Json.CLOSE_ARRAY);
  }

  lemma LastKey(keys: set<Text>, k: Text)
    requires forall l :: l in keys ==> Less(l, k)
    ensures Json.SortedKeys(keys + {k}) == Json.SortedKeys(keys) + [k]
  {
    Json.SortedKeysAreSorted(keys);
    Json.SortedKeysAreSorted(keys + {k});
    Json.SortedListingUnique(Json.SortedKeys(keys + {k}), Json.SortedKeys(keys) + [k]);
  }

  lemma MembersGrow(fields: map<Text, Json.Json>, k: Text, v: Json.Json)
    requires forall l :: l in fields ==> Less(l, k)
    ensures Json.MemberParts(Json.SortedKeys(fields[k := v].Keys), fields[k := v]) ==
      Json.MemberParts(Json.SortedKeys(fields.Keys), fields) + [Json.Member(k, Json.Print(v))]
  {
    LessTrichotomy(k, k);
    LastKey(fields.Keys, k);
    assert fields[k := v].Keys == fields.Keys + {k};
    SamePartsBefore(fields, fields[k := v], Json.SortedKeys(fields.Keys), k);
  }

  /** The parts of a longer list of members, when nothing changes for the keys before. */
  lemma SamePartsBefore(fields: map<Text, Json.Json>, more: map<Text, Json.Json>, keys: seq<Text>, k: Text)
    requires (forall l :: l in keys ==> l in fields && l in more && more[l] == fields[l]) && k in more
    ensures Json.MemberParts(keys + [k], more) == Json.MemberParts(keys, fields) + [Json.Member(k, Json.Print(more[k]))]
  {
    var longer, parts := Json.MemberParts(keys + [k], more), Json.MemberParts(keys, fields);
    forall i | 0 <= i < |keys| ensures longer[i] == parts[i] { assert keys[i] in keys; }
  }

  /** One more member, after all smaller keys: a comma unless it is the first, the quoted key, a colon, the text of
  its value. */
  lemma ObjectGrows(fields: map<Text, Json.Json>, k: Text, v: Json.Json)
    requires forall l :: l in fields ==> Less(l, k)
    ensures var before := Json.Print(Json.Obj(fields));
      Json.Print(Json.Obj(fields[k := v])) == before[..|before| - 1]
        + ((if fields == map[] then [] else Ascii(",")) + (Json.Print(Json.Str(k)) + (Ascii(":") + Json.Print(v)))) + Ascii("}")
  {
    Json.PrintObject(fields);
    Json.PrintObject(fields[k := v]);
    MembersGrow(fields, k, v);
    NoParts(fields);
    MemberText(k, v);
    BracketedGrows(Json.OPEN_OBJECT, Json.MemberParts(Json.SortedKeys(fields.Keys), fields), Json.Member(k, Json.Print(v)), Json.CLOSE_OBJECT);
  }

  lemma MemberText(k: Text, v: Json.Json)
    ensures Json.Member(k, Json.Print(v)) == Json.Print(Json.Str(k)) + (Ascii(":") + Json.Print(v))
    ensures [Json.CLOSE_OBJECT] == Ascii("}")
  {
    assert [Json.COLON] == Ascii(":");
  }

  lemma NoParts(fields: map<Text, Json.Json>)
    ensures Json.MemberParts(Json.SortedKeys(fields.Keys), fields) == [] <==> fields == map[]
  {
    if fields != map[] {
      var k :| k in fields;
      assert k in Json.SortedKeys(fields.Keys);
    }
  }

  // ---------- numbers ----------

  /** The ordinary decimal text of a natural number. */
  function DecimalText(n: nat): Text {
    if n < 10 then ["0123456789"[n] as int] else DecimalText(n / 10) + ["0123456789"[n % 10] as int]
  }

  lemma {:induction false} DigitTextConcat(a: seq<JsonNumber.Digit>, b: seq<JsonNumber.Digit>)
    ensures JsonNumber.DigitText(a + b) == JsonNumber.DigitText(a) + JsonNumber.DigitText(b)
  {
    if a == [] {
      assert a + b == b;
    } else {
      DigitTextConcat(a[1..], b);
      assert (a + b)[1..] == a[1..] + b && (a + b)[0] == a[0];
      var first, rest := [a[0] as int + 48], JsonNumber.DigitText(a[1..]);
      assert first + (rest + JsonNumber.DigitText(b)) == (first + rest) + JsonNumber.DigitText(b);
    }
  }

  lemma {:induction false} NaturalText(n: nat)
    ensures JsonNumber.DigitText(JsonNumber.NatDigits(n)) == DecimalText(n)
  {
    if n >= 10 {
      NaturalText(n / 10);
      DigitTextConcat(JsonNumber.NatDigits(n / 10), [n % 10]);
    }
  }

  function Power(k: nat): nat { if k == 0 then 1 else 10 * Power(k - 1) }

  lemma {:induction false} DigitCount(n: nat, k: nat)
    requires 0 < k && n < Power(k)
    ensures |JsonNumber.NatDigits(n)| <= k
  {
    if n >= 10 { DigitCount(n / 10, k - 1); }
  }

  lemma PlainDigits(negative: bool, ds: seq<JsonNumber.Digit>)
    requires ds != [] && ds[0] != 0 && |ds| <= 21
    ensures JsonNumber.Print(JsonNumber.Normalize(negative, ds, |ds|)) == (if negative then Ascii("-") else []) + JsonNumber.DigitText(ds)
  {
    JsonNumber.NormalizeStripsZeros(negative, ds, |ds|);
    var d := JsonNumber.Normalize(negative, ds, |ds|);
    assert d.digits + JsonNumber.Zeros(d.point - |d.digits|) == ds;
    assert JsonNumber.PrintUnsigned(d.digits, d.point) == JsonNumber.DigitText(ds);
    assert [JsonNumber.MINUS] == Ascii("-");
  }

  /** Every integer below 10^21 is written as its plain decimal digits, with a minus sign if it is negative. */
  lemma IntegerText(n: int)
    requires -(Power(21) as int) < n < Power(21)
    ensures JsonNumber.Print(JsonNumber.OfInt(n)) == if n < 0 then Ascii("-") + DecimalText(-n) else DecimalText(n)
  {
    var m := if n < 0 then -n else n;
    DigitCount(m, 21);
    NaturalText(m);
    JsonNumber.LeadingDigit(m);
    if n == 0 {
      ZeroText();
    } else {
      PlainDigits(n < 0, JsonNumber.NatDigits(m));
    }
  }

  lemma ZeroText()
    ensures JsonNumber.Print(JsonNumber.OfInt(0)) == DecimalText(0)
  {
    assert [0 as JsonNumber.Digit][1..] == [];
    assert JsonNumber.Normalize(false, [0], 1) == JsonNumber.Normalize(false, [0 as JsonNumber.Digit][1..], 0);
  }

  /** Which numbers are written with an exponent, and which with a fraction. */
  lemma NotationIs(d: JsonNumber.Finite)
    requires d.Decimal?
    ensures 'e' as int in JsonNumber.Print(d) <==> !(-6 < d.point <= 21)
    ensures '.' as int in JsonNumber.Print(d) <==> if -6 < d.point <= 21 then d.point < |d.digits| else |d.digits| > 1
  {
    var ds, n, k := d.digits, d.point, |d.digits|;
    NoLetters(ds); NoLetters(ds[..1]); NoLetters(ds[1..]);
    if k <= n <= 21 {
      NoLetters(ds + JsonNumber.Zeros(n - k));
    } else if 0 < n <= 21 {
      NoLetters(ds[..n]); NoLetters(ds[n..]);
    } else if -6 < n <= 0 {
      NoLetters([0]); NoLetters(JsonNumber.Zeros(-n) + ds);
    } else {
      NoLetters(JsonNumber.NatDigits(if n - 1 < 0 then -(n - 1) else n - 1));
      ExponentLetters(n - 1);
    }
  }

  lemma {:induction false} NoLetters(ds: seq<JsonNumber.Digit>)
    ensures forall c :: c in JsonNumber.DigitText(ds) ==> 48 <= c <= 57
  {
    if ds != [] { NoLetters(ds[1..]); }
  }

  lemma ExponentLetters(e: int)
    ensures 'e' as int in JsonNumber.ExponentText(e) && '.' as int !in JsonNumber.ExponentText(e)
  {
    NoLetters(JsonNumber.NatDigits(if e < 0 then -e else e));
    assert JsonNumber.ExponentText(e)[0] == 'e' as int;
  }

  lemma {:induction false} DigitsAre(ds: seq<JsonNumber.Digit>, s: string)
    requires |s| == |ds| && forall i :: 0 <= i < |ds| ==> s[i] as int == ds[i] as int + 48
    ensures JsonNumber.DigitText(ds) == Ascii(s)
  {
    if ds != [] { DigitsAre(ds[1..], s[1..]); }
  }

  /** Numbers on both sides of every change of notation. */
  lemma LargestPlain()
    ensures JsonNumber.Print(JsonNumber.Decimal(false, [1], 21)) == Ascii("100000000000000000000")
  {
    DigitsAre([1] + JsonNumber.Zeros(20), "100000000000000000000");
  }

  lemma SmallestExponent()
    ensures JsonNumber.Print(JsonNumber.Decimal(false, [1], 22)) == Ascii("1e+21")
  {
    DigitsAre([1], "1");
    DigitsAre([2, 1], "21");
    assert JsonNumber.NatDigits(21) == [2, 1];
  }

  lemma NegativeExponent()
    ensures JsonNumber.Print(JsonNumber.Decimal(true, [1, 2], -6)) == Ascii("-1.2e-7")
  {
    DigitsAre([1], "1");
    DigitsAre([2], "2");
    DigitsAre([7], "7");
    assert [1, 2][..1] == [1] && [1, 2][1..] == [2];
    assert JsonNumber.NatDigits(7) == [7];
  }

  /** Below one, a fraction: the point, the zeros, and the digits. */
  lemma FractionText(d: JsonNumber.Finite)
    requires d.Decimal? && !d.negative && -6 < d.point <= 0
    ensures JsonNumber.Print(d) == ['0' as int, '.' as int] + JsonNumber.DigitText(JsonNumber.Zeros(-d.point) + d.digits)
  {
    assert JsonNumber.DigitText([0]) == [48] + JsonNumber.DigitText([]);
  }

  lemma SmallestFraction()
    ensures JsonNumber.Print(JsonNumber.Decimal(false, [1, 2], -5)) == ['0' as int, '.' as int] + Ascii("0000012")
  {
    FractionText(JsonNumber.Decimal(false, [1, 2], -5));
    DigitsAre(JsonNumber.Zeros(5) + [1, 2], "0000012");
  }

  lemma MixedFraction()
    ensures JsonNumber.Print(JsonNumber.Decimal(true, [1, 2, 5], 2)) == Ascii("-12.5")
  {
    DigitsAre([1, 2], "12");
    DigitsAre([5], "5");
    assert [1, 2, 5][..2] == [1, 2] && [1, 2, 5][2..] == [5];
  }

  // ---------- what a reader refuses ----------

  /** The digits of an integer part: no leading zero, unless it is the zero itself. */
  predicate IsWhole(ds: seq<JsonNumber.Digit>) { ds != [] && (ds[0] == 0 ==> |ds| == 1) }

  lemma AfterWhole(ds: seq<JsonNumber.Digit>, rest: Text)
    requires ds != [] && (rest == [] || !JsonNumber.IsDigit(rest[0]))
    ensures JsonNumber.Read(JsonNumber.DigitText(ds) + rest) ==
      if IsWhole(ds) then JsonNumber.ReadAfter(false, ds, rest) else None
  {
    JsonNumber.TakeDigitText(ds, rest);
  }

  lemma NoDigitFollows(tail: Text)
    requires tail == [] || !JsonNumber.IsDigit(tail[0])
    ensures JsonNumber.TakeDigits(tail) == ([], tail)
  {
  }

  /** A leading zero, and a point without a digit after it, are refused. */
  lemma MalformedIntegers(ds: seq<JsonNumber.Digit>, tail: Text)
    requires ds != [] && (tail == [] || !JsonNumber.IsDigit(tail[0]))
    ensures !IsWhole(ds) ==> JsonNumber.Read(JsonNumber.DigitText(ds) + tail).None?
    ensures JsonNumber.Read(JsonNumber.DigitText(ds) + (['.' as int] + tail)).None?
  {
    AfterWhole(ds, tail);
    AfterWhole(ds, ['.' as int] + tail);
    assert (['.' as int] + tail)[1..] == tail;
    NoDigitFollows(tail);
  }

  /** An exponent without a digit, signed or not, is refused. */
  lemma MalformedExponents(ds: seq<JsonNumber.Digit>, sign: CodeUnit, tail: Text)
    requires ds != [] && (tail == [] || (!JsonNumber.IsDigit(tail[0]) && tail[0] != '+' as int && tail[0] != '-' as int))
    requires sign == '+' as int || sign == '-' as int
    ensures JsonNumber.Read(JsonNumber.DigitText(ds) + (['e' as int] + tail)).None?
    ensures JsonNumber.Read(JsonNumber.DigitText(ds) + (['E' as int, sign] + tail)).None?
  {
    AfterWhole(ds, ['e' as int] + tail);
    AfterWhole(ds, ['E' as int, sign] + tail);
    assert (['e' as int] + tail)[1..] == tail && (['E' as int, sign] + tail)[2..] == tail;
    NoDigitFollows(tail);
  }

  /** The four spaces a reader skips. */
  lemma SpacesAre(c: CodeUnit)
    ensures Json.IsSpace(c) <==> c == ' ' as int || c == '\n' as int || c == '\r' as int || c == '\t' as int
  {
  }

  /** Spaces, and nothing else. */
  ghost predicate IsSpaces(t: Text) { forall i :: 0 <= i < |t| ==> Json.IsSpace(t[i]) }

  lemma {:induction false} SkipsSpaces(w: Text, t: Text)
    requires IsSpaces(w)
    ensures Json.SkipSpace(w + t) == Json.SkipSpace(t)
  {
    if w == [] {
      assert w + t == t;
    } else {
      SkipsSpaces(w[1..], t);
      assert (w + t)[1..] == w[1..] + t;
    }
  }

  /** Spaces around a printed value change nothing; anything else after it is refused. */
  lemma ParsesOnlyOneValue(j: Json.Json, before: Text, rest: Text)
    requires IsSpaces(before) && JsonNumber.EndsNumber(rest)
    ensures Json.Parse(before + (Json.Print(j) + rest)) == if IsSpaces(rest) then Some(j) else None
  {
    var t := Json.Print(j) + rest;
    SkipsSpaces(before, t);
    Json.ValueRoundTrip(j, rest);
    ReadsSkipped(before + t);
    ReadsSkipped(t);
    SkipsAllIff(rest);
  }

  lemma {:induction false} SkipTwice(t: Text)
    ensures Json.SkipSpace(Json.SkipSpace(t)) == Json.SkipSpace(t)
  {
    if t != [] && Json.IsSpace(t[0]) { SkipTwice(t[1..]); }
  }

  lemma ReadsSkipped(t: Text)
    ensures Json.ReadValue(t) == Json.ReadValue(Json.SkipSpace(t))
  {
    SkipTwice(t);
  }

  lemma {:induction false} SkipsAllIff(t: Text)
    ensures Json.SkipSpace(t) == [] <==> IsSpaces(t)
  {
    if t != [] && Json.IsSpace(t[0]) {
      SkipsAllIff(t[1..]);
      assert t == [t[0]] + t[1..];
    }
  }

  /** After an element comes a comma or the end of the array. */
  lemma ItemsNeedCommas(j: Json.Json, rest: Text)
    requires JsonNumber.EndsNumber(rest)
    requires Json.SkipSpace(rest) == [] || (Json.SkipSpace(rest)[0] != ',' as int && Json.SkipSpace(rest)[0] != ']' as int)
    ensures Json.ReadItems(Json.Print(j) + rest).None?
  {
    Json.ValueRoundTrip(j, rest);
  }
}

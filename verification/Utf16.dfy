/** JavaScript strings: sequences of UTF-16 code units, surrogates included.

Dafny's `char` cannot hold a lone surrogate, and lone surrogates are exactly what several of the
modelled functions have to get right, so a string is a sequence of 16-bit numbers here.
*/
module Utf16 {
  type CodeUnit = c: int | 0 <= c < 0x1_0000
  type Text = seq<CodeUnit>

  /** The text of an ASCII literal. */
  function Ascii(s: string): (t: Text)
    requires forall i :: 0 <= i < |s| ==> s[i] < 128 as char
    ensures |t| == |s| && forall i :: 0 <= i < |s| ==> t[i] == s[i] as int
  {
    seq(|s|, i requires 0 <= i < |s| => s[i] as int)
  }

  lemma Associative(a: Text, b: Text, c: Text)
    ensures a + b + c == a + (b + c)
  {
  }

  // ---------- order by code unit ----------

  predicate Less(a: Text, b: Text) {
    b != [] && (a == [] || a[0] < b[0] || (a[0] == b[0] && Less(a[1..], b[1..])))
  }

  predicate AtMost(a: Text, b: Text) { a == b || Less(a, b) }

  lemma {:induction false} LessTrichotomy(a: Text, b: Text)
    ensures a == b || Less(a, b) || Less(b, a)
    ensures !(Less(a, b) && Less(b, a)) && !Less(a, a)
  {
    if a != [] && b != [] {
      LessTrichotomy(a[1..], b[1..]);
      LessTrichotomy(a[1..], a[1..]);
      assert a == [a[0]] + a[1..] && b == [b[0]] + b[1..];
    } else if a != [] {
      LessTrichotomy(a[1..], a[1..]);
    }
  }

  lemma {:induction false} LessTransitive(a: Text, b: Text, c: Text)
    requires Less(a, b) && Less(b, c)
    ensures Less(a, c)
  {
    if a != [] && a[0] == b[0] == c[0] { LessTransitive(a[1..], b[1..], c[1..]); }
  }

  /** The texts agree before position `k`, and there the first has the smaller unit, or has ended. */
  ghost predicate FirstDifference(a: Text, b: Text, k: nat) {
    k <= |a| && k < |b| && a[..k] == b[..k] && (k == |a| || a[k] < b[k])
  }

  /** The order is the one of `<` on strings: it is decided by the first difference. */
  lemma {:induction false} LessIffFirstDifference(a: Text, b: Text)
    ensures Less(a, b) <==> exists k: nat :: FirstDifference(a, b, k)
  {
    if a == [] {
      if b != [] { assert FirstDifference(a, b, 0); }
    } else if b != [] {
      LessIffFirstDifference(a[1..], b[1..]);
      if a[0] < b[0] { assert FirstDifference(a, b, 0); }
      if a[0] == b[0] && Less(a[1..], b[1..]) {
        var k: nat :| FirstDifference(a[1..], b[1..], k);
        assert a[..k + 1] == [a[0]] + a[1..][..k] && b[..k + 1] == [b[0]] + b[1..][..k];
        assert FirstDifference(a, b, k + 1);
      }
      if k: nat :| FirstDifference(a, b, k) {
        if k > 0 {
          assert a[0] == a[..k][0] && b[0] == b[..k][0];
          assert a[1..][..k - 1] == a[..k][1..] && b[1..][..k - 1] == b[..k][1..];
          assert FirstDifference(a[1..], b[1..], k - 1);
        }
      }
    }
  }

  /** `AtMost` is a total order on strings. */
  lemma AtMostIsTotalOrder()
    ensures forall a, b :: AtMost(a, b) || AtMost(b, a)
    ensures forall a, b :: AtMost(a, b) && AtMost(b, a) ==> a == b
    ensures forall a, b, c :: AtMost(a, b) && AtMost(b, c) ==> AtMost(a, c)
  {
    forall a, b ensures (AtMost(a, b) || AtMost(b, a)) && (AtMost(a, b) && AtMost(b, a) ==> a == b) {
      LessTrichotomy(a, b);
    }
    forall a, b, c | AtMost(a, b) && AtMost(b, c) ensures AtMost(a, c) {
      if a != b && b != c { LessTransitive(a, b, c); }
    }
  }

  // ---------- whitespace ----------

  /** The units matched by `\s`, which are also the units `trim` removes. */
  predicate IsWhitespace(c: CodeUnit) {
    || 9 <= c <= 13 || c == 32 || c == 0xA0 || c == 0x1680 || 0x2000 <= c <= 0x200A
    || c == 0x2028 || c == 0x2029 || c == 0x202F || c == 0x205F || c == 0x3000 || c == 0xFEFF
  }

  /** White space and line terminators, of sections 12.2 and 12.3 of ECMA-262. */
  const BLANKS: set<CodeUnit> := {9, 10, 11, 12, 13, 32, 0xA0, 0x1680, 0x2000, 0x2001, 0x2002, 0x2003, 0x2004, 0x2005, 0x2006,
    0x2007, 0x2008, 0x2009, 0x200A, 0x2028, 0x2029, 0x202F, 0x205F, 0x3000, 0xFEFF}

  lemma WhitespaceIs(c: CodeUnit)
    ensures IsWhitespace(c) <==> c in BLANKS
  {
  }

  /** `trim` leaves nothing. */
  predicate IsBlank(t: Text) { forall i :: 0 <= i < |t| ==> IsWhitespace(t[i]) }

  /** Some unit is no blank. */
  predicate HasText(t: Text) { exists i :: 0 <= i < |t| && t[i] !in BLANKS }

  lemma BlankIff(t: Text)
    ensures IsBlank(t) <==> !HasText(t)
  {
    forall i | 0 <= i < |t| ensures IsWhitespace(t[i]) <==> t[i] in BLANKS { WhitespaceIs(t[i]); }
  }

  // ---------- surrogates ----------

  predicate IsHigh(c: CodeUnit) { 0xD800 <= c <= 0xDBFF }
  predicate IsLow(c: CodeUnit) { 0xDC00 <= c <= 0xDFFF }
  predicate StartsPair(t: Text) { |t| >= 2 && IsHigh(t[0]) && IsLow(t[1]) }

  /** No lone surrogate. */
  predicate WellFormed(t: Text) {
    t == [] ||
    (if StartsPair(t) then WellFormed(t[2..])
     else !IsHigh(t[0]) && !IsLow(t[0]) && WellFormed(t[1..]))
  }

  /** The surrogate at `i`, if there is one, has its other half beside it. */
  predicate PairedAt(t: Text, i: nat)
    requires i < |t|
  {
    && (IsHigh(t[i]) ==> i + 1 < |t| && IsLow(t[i + 1]))
    && (IsLow(t[i]) ==> i > 0 && IsHigh(t[i - 1]))
  }

  lemma {:induction false} WellFormedIffPaired(t: Text)
    ensures WellFormed(t) <==> forall i: nat :: i < |t| ==> PairedAt(t, i)
  {
    if t != [] {
      var n := if StartsPair(t) then 2 else 1;
      var tail := t[n..];
      WellFormedIffPaired(tail);
      if WellFormed(t) {
        forall i: nat | i < |t| ensures PairedAt(t, i) {
          if i >= n { assert PairedAt(tail, i - n); }
        }
      }
      if forall i: nat :: i < |t| ==> PairedAt(t, i) {
        assert PairedAt(t, 0);
        forall i: nat | i < |tail| ensures PairedAt(tail, i) { assert PairedAt(t, i + n); }
      }
    }
  }

  /** What a string becomes when a lossy encoder replaces every lone surrogate by U+FFFD. */
  function ReplaceLone(t: Text): Text {
    if t == [] then []
    else if StartsPair(t) then t[..2] + ReplaceLone(t[2..])
    else [if IsHigh(t[0]) || IsLow(t[0]) then 0xFFFD else t[0]] + ReplaceLone(t[1..])
  }

  lemma {:induction false} ReplaceLoneIsWellFormed(t: Text)
    ensures WellFormed(ReplaceLone(t))
  {
    if t == [] {
    } else if StartsPair(t) {
      ReplaceLoneIsWellFormed(t[2..]);
      assert ReplaceLone(t)[2..] == ReplaceLone(t[2..]);
    } else {
      ReplaceLoneIsWellFormed(t[1..]);
      assert ReplaceLone(t)[1..] == ReplaceLone(t[1..]);
    }
  }

  /** Lossy encoding changes a string exactly when it holds a lone surrogate. */
  lemma {:induction false} ReplaceLoneIdentity(t: Text)
    ensures ReplaceLone(t) == t <==> WellFormed(t)
  {
    if t == [] {
    } else if StartsPair(t) {
      ReplaceLoneIdentity(t[2..]);
      assert t == t[..2] + t[2..] && ReplaceLone(t)[2..] == ReplaceLone(t[2..]);
    } else {
      ReplaceLoneIdentity(t[1..]);
      assert t == [t[0]] + t[1..] && ReplaceLone(t)[1..] == ReplaceLone(t[1..]);
    }
  }

  lemma {:induction false} WellFormedConcat(a: Text, b: Text)
    requires WellFormed(a) && WellFormed(b)
    ensures WellFormed(a + b)
  {
    if a == [] {
      assert a + b == b;
    } else if StartsPair(a) {
      WellFormedConcat(a[2..], b);
      assert (a + b)[2..] == a[2..] + b;
    } else {
      WellFormedConcat(a[1..], b);
      assert (a + b)[1..] == a[1..] + b;
    }
  }

  lemma {:induction false} PlainIsWellFormed(t: Text)
    requires forall i :: 0 <= i < |t| ==> !IsHigh(t[i]) && !IsLow(t[i])
    ensures WellFormed(t)
  {
    if t != [] { PlainIsWellFormed(t[1..]); }
  }

  lemma {:induction false} ReplaceLoneKeepsBlank(t: Text)
    ensures IsBlank(t) <==> IsBlank(ReplaceLone(t))
    ensures |ReplaceLone(t)| == |t|
    ensures forall i :: 0 <= i < |t| ==>
      ReplaceLone(t)[i] == t[i] || (ReplaceLone(t)[i] == 0xFFFD && (IsHigh(t[i]) || IsLow(t[i])))
  {
    if t == [] {
    } else if StartsPair(t) {
      ReplaceLoneKeepsBlank(t[2..]);
      assert ReplaceLone(t)[0] == t[0] && !IsWhitespace(t[0]);
    } else {
      ReplaceLoneKeepsBlank(t[1..]);
      var r := ReplaceLone(t);
      assert r[1..] == ReplaceLone(t[1..]);
      assert forall i :: 1 <= i < |t| ==> r[i] == r[1..][i - 1] && t[i] == t[1..][i - 1];
    }
  }
}

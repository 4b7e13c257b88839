/** Splitting one source range into pieces that fit a token limit.

The token counter is an arbitrary function of the measured text.  Nothing here assumes that a longer
text has more tokens, so "does not fit" says nothing about any other candidate.
*/
module Splitting {
  import opened Options
  import opened Utf16

  datatype Range = Range(start: nat, end: nat)
  datatype Limits = Limits(targetTokens: nat, maxTokens: nat)
  type Counter = Text -> nat

  predicate InSource(content: Text, r: Range) { r.start <= r.end <= |content| }

  /** `content.slice(a, b)` for offsets that are not negative. */
  function Slice(content: Text, a: nat, b: nat): Text {
    var end := if b < |content| then b else |content|;
    if a < end then content[a..end] else []
  }

  function Abs(n: int): nat { if n < 0 then -n else n }

  // ---------- whitespace ----------

  predicate SpaceAt(content: Text, i: nat) { i < |content| && IsWhitespace(content[i]) }

  /** Only whitespace between two offsets. */
  ghost predicate BlankBetween(content: Text, a: int, b: int) {
    forall i :: a <= i < b && 0 <= i ==> SpaceAt(content, i)
  }

  /** The largest end that leaves no trailing whitespace. */
  function Trimmed(content: Text, start: nat, end: nat): (r: nat)
    ensures r <= end && (start <= end ==> start <= r) && (start >= end ==> r == end)
    ensures BlankBetween(content, r, end)
    ensures r > start ==> !SpaceAt(content, r - 1)
  {
    if end > start && SpaceAt(content, end - 1) then Trimmed(content, start, end - 1) else end
  }

  method TrimmedEnd(content: Text, start: nat, end: nat) returns (result: nat)
    ensures result == Trimmed(content, start, end)
  {
    result := end;
    while result > start && SpaceAt(content, result - 1)
      invariant Trimmed(content, start, result) == Trimmed(content, start, end)
    {
      result := result - 1;
    }
  }

  /** The first offset at or after `from`, and before `end`, that is not whitespace. */
  function Skipped(content: Text, from: nat, end: nat): (r: nat)
    ensures from <= r && (from <= end ==> r <= end)
    ensures BlankBetween(content, from, r)
    ensures r < end ==> !SpaceAt(content, r)
    decreases end - from
  {
    if from < end && SpaceAt(content, from) then Skipped(content, from + 1, end) else from
  }

  // ---------- candidate boundaries ----------

  /** Full stop, exclamation mark, question mark, ellipsis. */
  predicate IsTerminator(c: CodeUnit) { c == 0x2E || c == 0x21 || c == 0x3F || c == 0x2026 }

  /** Closing quotes and brackets. */
  predicate IsCloser(c: CodeUnit) {
    c == 0x22 || c == 0x27 || c == 0xBB || c == 0x201D || c == 0x29 || c == 0x5D
  }

  /** The characters that end a sentence, and those that may close after it; two of each kind are not ASCII. */
  lemma SentenceCharacters(c: CodeUnit)
    ensures IsTerminator(c) <==> c == '.' as int || c == '!' as int || c == '?' as int || c == '\U{2026}' as int
    ensures IsCloser(c) <==> c == '"' as int || c == '\'' as int || c == ')' as int || c == ']' as int || c == '\U{00BB}' as int || c == '\U{201D}' as int
  {
  }

  datatype Kind = Sentence | Space | CodePoint

  predicate ClosersBetween(content: Text, a: nat, b: nat) {
    forall k :: a <= k < b ==> k < |content| && IsCloser(content[k])
  }

  /** A sentence ends at `b`: a terminator, any closers, then whitespace inside the window. */
  ghost predicate IsSentenceEnd(content: Text, start: nat, end: nat, b: nat) {
    start < b < end && SpaceAt(content, b) &&
    exists i :: start <= i < b && i < |content| && IsTerminator(content[i]) && ClosersBetween(content, i + 1, b)
  }

  /** A whitespace run begins at `b`. */
  predicate IsRunStart(content: Text, start: nat, end: nat, b: nat) {
    start < b < end && SpaceAt(content, b) && !SpaceAt(content, b - 1)
  }

  /** Cutting at `b` would divide a surrogate pair. */
  predicate DividesPair(content: Text, b: nat) {
    0 < b < |content| && IsHigh(content[b - 1]) && IsLow(content[b])
  }

  /** A whole number of code points lies between `start` and `b`. */
  predicate IsWholePrefix(content: Text, start: nat, end: nat, b: nat) {
    start < b <= end && (b == end || !DividesPair(content, b))
  }

  ghost predicate IsCandidate(kind: Kind, content: Text, start: nat, end: nat, b: nat) {
    match kind
    case Sentence => IsSentenceEnd(content, start, end, b)
    case Space => IsRunStart(content, start, end, b)
    case CodePoint => IsWholePrefix(content, start, end, b)
  }

  ghost predicate Increasing(s: seq<nat>) { forall i, j :: 0 <= i < j < |s| ==> s[i] < s[j] }

  /** `s` lists the candidates of one kind, in order. */
  ghost predicate Lists(kind: Kind, content: Text, start: nat, end: nat, s: seq<nat>) {
    Increasing(s) && forall b: nat :: b in s <==> IsCandidate(kind, content, start, end, b)
  }

  method SentenceBoundaries(content: Text, start: nat, end: nat) returns (boundaries: seq<nat>)
    requires start <= end <= |content|
    ensures Lists(Sentence, content, start, end, boundaries)
  {
    boundaries := [];
    var i := start;
    while i < end
      invariant start <= i <= end && Increasing(boundaries)
      invariant forall k :: 0 <= k < |boundaries| ==> boundaries[k] <= i
      invariant forall b :: b in boundaries ==> IsSentenceEnd(content, start, end, b)
      invariant forall t, b :: start <= t < i && t < b && EndsSentence(content, end, t, b) ==> b in boundaries
    {
      if IsTerminator(content[i]) {
        var j := i + 1;
        while j < end && IsCloser(content[j])
          invariant i < j <= end && ClosersBetween(content, i + 1, j)
        {
          j := j + 1;
        }
        CloserRunEnds(content, end, i, j);
        if j < end && SpaceAt(content, j) {
          assert EndsSentence(content, end, i, j);
          boundaries := boundaries + [j];
          i := j;
        } else {
          i := i + 1;
        }
      } else {
        i := i + 1;
      }
    }
    forall b: nat | IsSentenceEnd(content, start, end, b) ensures b in boundaries {
      var t :| start <= t < b && t < |content| && IsTerminator(content[t]) && ClosersBetween(content, t + 1, b);
      assert EndsSentence(content, end, t, b);
    }
  }

  /** The terminator at `t` ends a sentence at `b`. */
  ghost predicate EndsSentence(content: Text, end: nat, t: nat, b: nat) {
    t < |content| && IsTerminator(content[t]) && t < b < end && SpaceAt(content, b) && ClosersBetween(content, t + 1, b)
  }

  /** After a terminator the closers end in one place only, and none of them ends a sentence itself. */
  lemma CloserRunEnds(content: Text, end: nat, i: nat, j: nat)
    requires i < j <= end <= |content| && ClosersBetween(content, i + 1, j)
    requires j < end ==> !IsCloser(content[j])
    ensures forall b :: EndsSentence(content, end, i, b) ==> b == j
    ensures forall t, b :: i < t < j ==> !EndsSentence(content, end, t, b)
  {
    forall b: nat | EndsSentence(content, end, i, b) ensures b == j {
      assert !IsCloser(content[b]);
    }
  }

  method WhitespaceBoundaries(content: Text, start: nat, end: nat) returns (boundaries: seq<nat>)
    requires start <= end <= |content|
    ensures Lists(Space, content, start, end, boundaries)
  {
    boundaries := [];
    var i := start;
    while i < end
      invariant start <= i <= end && Increasing(boundaries)
      invariant forall k :: 0 <= k < |boundaries| ==> boundaries[k] < i
      invariant i < end && i > start && SpaceAt(content, i) ==> !SpaceAt(content, i - 1)
      invariant forall b: nat :: b in boundaries <==> IsRunStart(content, start, end, b) && b < i
    {
      if SpaceAt(content, i) {
        var boundary := i;
        if boundary > start { boundaries := boundaries + [boundary]; }
        i := i + 1;
        while i < end && SpaceAt(content, i)
          invariant boundary < i <= end
          invariant forall k :: boundary <= k < i ==> SpaceAt(content, k)
        {
          i := i + 1;
        }
      } else {
        i := i + 1;
      }
    }
  }

  /** Width in code units of the code point at `offset`. */
  function CodePointWidth(content: Text, offset: nat): nat {
    if offset + 1 < |content| && IsHigh(content[offset]) && IsLow(content[offset + 1]) then 2 else 1
  }

  method CodePointBoundaries(content: Text, start: nat, limit: nat) returns (boundaries: seq<nat>)
    requires start <= limit <= |content|
    ensures Lists(CodePoint, content, start, limit, boundaries)
  {
    boundaries := [];
    var cursor := start;
    while cursor < limit
      invariant start <= cursor <= limit && Increasing(boundaries)
      invariant forall k :: 0 <= k < |boundaries| ==> boundaries[k] <= cursor
      invariant start < cursor < limit ==> !DividesPair(content, cursor)
      invariant forall b: nat :: b in boundaries <==> IsWholePrefix(content, start, limit, b) && b <= cursor
    {
      var next := cursor + CodePointWidth(content, cursor);
      cursor := if next < limit then next else limit;
      boundaries := boundaries + [cursor];
    }
  }

  // ---------- measuring ----------

  /** Well-formed text between two offsets that divide no surrogate pair. */
  ghost predicate IsWhole(content: Text, a: nat, b: nat) {
    WellFormed(content) && !DividesPair(content, a) && !DividesPair(content, b)
  }

  lemma WholeSliceAt(content: Text, a: nat, b: nat, i: nat)
    requires IsWhole(content, a, b) && i < |Slice(content, a, b)|
    ensures PairedAt(Slice(content, a, b), i)
  {
    var s := Slice(content, a, b);
    WellFormedIffPaired(content);
    assert s[i] == content[a + i] && PairedAt(content, a + i);
    if i + 1 < |s| { assert s[i + 1] == content[a + i + 1]; }
    if i > 0 { assert s[i - 1] == content[a + i - 1]; }
  }

  lemma WholeSlice(content: Text, a: nat, b: nat)
    requires IsWhole(content, a, b)
    ensures WellFormed(Slice(content, a, b))
  {
    forall i: nat | i < |Slice(content, a, b)| ensures PairedAt(Slice(content, a, b), i) {
      WholeSliceAt(content, a, b, i);
    }
    WellFormedIffPaired(Slice(content, a, b));
  }

  lemma TrimmedIsWhole(content: Text, start: nat, b: nat)
    requires IsWhole(content, start, b)
    ensures WellFormed(Slice(content, start, Trimmed(content, start, b)))
  {
    var end := Trimmed(content, start, b);
    assert end < b ==> SpaceAt(content, end);
    WholeSlice(content, start, end);
  }

  lemma CandidateIsWhole(kind: Kind, content: Text, start: nat, end: nat, b: nat)
    requires IsWhole(content, start, end) && IsCandidate(kind, content, start, end, b)
    ensures IsWhole(content, start, b)
  {
  }

  /** The only place where the counter is called.  Where `whole` is promised, it is handed well-formed
  text. */
  method Measure(content: Text, a: nat, b: nat, count: Counter, ghost whole: bool) returns (tokens: nat)
    requires whole ==> WellFormed(Slice(content, a, b))
    ensures tokens == count(Slice(content, a, b))
  {
    tokens := count(Slice(content, a, b));
  }

  // ---------- choosing one boundary ----------

  /** `next` is where scanning goes on; the piece itself ends before trailing whitespace. */
  datatype Boundary = Boundary(end: nat, next: nat)

  function PieceTokens(content: Text, start: nat, candidate: nat, count: Counter): nat
  {
    count(Slice(content, start, Trimmed(content, start, candidate)))
  }

  predicate Fits(content: Text, start: nat, candidate: nat, limits: Limits, count: Counter)
  {
    Trimmed(content, start, candidate) > start && PieceTokens(content, start, candidate, count) <= limits.maxTokens
  }

  function Distance(content: Text, start: nat, candidate: nat, limits: Limits, count: Counter): nat
  {
    Abs(PieceTokens(content, start, candidate, count) - limits.targetTokens)
  }

  /** `candidates[k]` fits, is nearest the target, and is the last of the nearest. */
  ghost predicate IsChoice(content: Text, start: nat, candidates: seq<nat>, upTo: int, k: int, limits: Limits, count: Counter)
    requires 0 <= upTo <= |candidates|
  {
    0 <= k < upTo && Fits(content, start, candidates[k], limits, count) &&
    forall j :: 0 <= j < upTo && Fits(content, start, candidates[j], limits, count) ==>
      && Distance(content, start, candidates[k], limits, count) <= Distance(content, start, candidates[j], limits, count)
      && (j > k ==> Distance(content, start, candidates[k], limits, count) < Distance(content, start, candidates[j], limits, count))
  }

  /** The best of the first `i` candidates. */
  ghost predicate IsBestSoFar(content: Text, start: nat, candidates: seq<nat>, i: int, best: Option<Boundary>, distance: nat, k: int,
      limits: Limits, count: Counter)
    requires 0 <= i <= |candidates|
  {
    match best
    case None => forall j :: 0 <= j < i ==> !Fits(content, start, candidates[j], limits, count)
    case Some(b) =>
      && IsChoice(content, start, candidates, i, k, limits, count)
      && b == Boundary(Trimmed(content, start, candidates[k]), candidates[k])
      && distance == Distance(content, start, candidates[k], limits, count)
  }

  /** A candidate that does not fit, or is farther from the target, changes nothing. */
  lemma BestStays(content: Text, start: nat, candidates: seq<nat>, i: int, best: Option<Boundary>, distance: nat, k: int,
      limits: Limits, count: Counter)
    requires 0 <= i < |candidates| && IsBestSoFar(content, start, candidates, i, best, distance, k, limits, count)
    requires Fits(content, start, candidates[i], limits, count) ==>
      best.Some? && distance < Distance(content, start, candidates[i], limits, count)
    ensures IsBestSoFar(content, start, candidates, i + 1, best, distance, k, limits, count)
  {
  }

  /** A fitting candidate that is at least as near takes its place. */
  lemma BestMoves(content: Text, start: nat, candidates: seq<nat>, i: int, best: Option<Boundary>, distance: nat, k: int,
      limits: Limits, count: Counter)
    requires 0 <= i < |candidates| && IsBestSoFar(content, start, candidates, i, best, distance, k, limits, count)
    requires Fits(content, start, candidates[i], limits, count)
    requires best.Some? ==> Distance(content, start, candidates[i], limits, count) <= distance
    ensures IsChoice(content, start, candidates, i + 1, i, limits, count)
  {
    forall j | 0 <= j < i && Fits(content, start, candidates[j], limits, count)
      ensures Distance(content, start, candidates[i], limits, count) <= Distance(content, start, candidates[j], limits, count)
    {
      assert best.Some?;
    }
  }

  /** `whole` stands for the promise that only whole text is measured. */
  method BestFittingBoundary(content: Text, start: nat, candidates: seq<nat>, limits: Limits, count: Counter, ghost whole: bool)
    returns (best: Option<Boundary>)
    requires whole ==> forall c :: c in candidates ==> IsWhole(content, start, c)
    ensures best.None? <==> forall c :: c in candidates ==> !Fits(content, start, c, limits, count)
    ensures best.Some? ==>
      exists k :: IsChoice(content, start, candidates, |candidates|, k, limits, count)
               && best.value == Boundary(Trimmed(content, start, candidates[k]), candidates[k])
  {
    best := None;
    var bestDistance := 0;
    ghost var k := 0;
    for i := 0 to |candidates|
      invariant IsBestSoFar(content, start, candidates, i, best, bestDistance, k, limits, count)
    {
      var candidate := candidates[i];
      var end := TrimmedEnd(content, start, candidate);
      if end <= start {
        BestStays(content, start, candidates, i, best, bestDistance, k, limits, count);
        continue;
      }
      if whole { TrimmedIsWhole(content, start, candidate); }
      var tokens := Measure(content, start, end, count, whole);
      if tokens > limits.maxTokens {
        BestStays(content, start, candidates, i, best, bestDistance, k, limits, count);
        continue;
      }
      var distance := Abs(tokens - limits.targetTokens);
      if best.None? || distance <= bestDistance {
        BestMoves(content, start, candidates, i, best, bestDistance, k, limits, count);
        best, bestDistance, k := Some(Boundary(end, candidate)), distance, i;
      } else {
        BestStays(content, start, candidates, i, best, bestDistance, k, limits, count);
      }
    }
    if best.Some? { assert Fits(content, start, candidates[k], limits, count) && candidates[k] in candidates; }
  }

  /** No candidate of one kind fits. */
  ghost predicate NoneFits(kind: Kind, content: Text, start: nat, end: nat, limits: Limits, count: Counter)
    requires start <= end <= |content|
  {
    forall b: nat :: IsCandidate(kind, content, start, end, b) ==> !Fits(content, start, b, limits, count)
  }

  /** The candidate of one kind that fits, is nearest the target token count, and on ties is latest. */
  ghost predicate IsBest(kind: Kind, content: Text, start: nat, end: nat, limits: Limits, count: Counter, b: Boundary)
    requires start <= end <= |content|
  {
    && IsCandidate(kind, content, start, end, b.next) && b.end == Trimmed(content, start, b.next)
    && Fits(content, start, b.next, limits, count)
    && forall c: nat :: IsCandidate(kind, content, start, end, c) && Fits(content, start, c, limits, count) ==>
         && Distance(content, start, b.next, limits, count) <= Distance(content, start, c, limits, count)
         && (c > b.next ==> Distance(content, start, b.next, limits, count) < Distance(content, start, c, limits, count))
  }

  lemma ChoiceIsBest(kind: Kind, content: Text, start: nat, end: nat, s: seq<nat>, k: int, limits: Limits, count: Counter)
    requires start <= end <= |content| && Lists(kind, content, start, end, s)
    requires IsChoice(content, start, s, |s|, k, limits, count)
    ensures IsBest(kind, content, start, end, limits, count, Boundary(Trimmed(content, start, s[k]), s[k]))
  {
    var best := s[k];
    forall c: nat | IsCandidate(kind, content, start, end, c) && Fits(content, start, c, limits, count)
      ensures Distance(content, start, best, limits, count) <= Distance(content, start, c, limits, count)
      ensures c > best ==> Distance(content, start, best, limits, count) < Distance(content, start, c, limits, count)
    {
      assert c in s;
      var j :| 0 <= j < |s| && s[j] == c;
      if j < k { assert s[j] < s[k]; }
    }
    assert best in s;
  }

  /** The best listed boundary of one kind, if any fits. */
  method BestOfKind(ghost kind: Kind, content: Text, start: nat, end: nat, candidates: seq<nat>, limits: Limits, count: Counter,
      ghost whole: bool)
    returns (best: Option<Boundary>)
    requires start <= end <= |content| && Lists(kind, content, start, end, candidates)
    requires whole ==> IsWhole(content, start, end)
    ensures best.None? <==> NoneFits(kind, content, start, end, limits, count)
    ensures best.Some? ==> IsBest(kind, content, start, end, limits, count, best.value)
  {
    if whole {
      forall c | c in candidates ensures IsWhole(content, start, c) { CandidateIsWhole(kind, content, start, end, c); }
    }
    best := BestFittingBoundary(content, start, candidates, limits, count, whole);
    if best.Some? {
      ghost var k :| IsChoice(content, start, candidates, |candidates|, k, limits, count)
        && best.value == Boundary(Trimmed(content, start, candidates[k]), candidates[k]);
      ChoiceIsBest(kind, content, start, end, candidates, k, limits, count);
      assert candidates[k] in candidates;
    }
  }

  /** The end of the first code point, when it is emitted on its own. */
  function SinglePointEnd(content: Text, start: nat, limit: nat): nat {
    var single := start + CodePointWidth(content, start);
    if single < limit then single else limit
  }

  method HardBoundary(content: Text, start: nat, limit: nat, limits: Limits, count: Counter, ghost whole: bool) returns (b: Boundary)
    requires start < limit <= |content|
    requires whole ==> IsWhole(content, start, limit)
    ensures if NoneFits(CodePoint, content, start, limit, limits, count)
      then b == Boundary(SinglePointEnd(content, start, limit), SinglePointEnd(content, start, limit))
      else IsBest(CodePoint, content, start, limit, limits, count, b)
  {
    var candidates := CodePointBoundaries(content, start, limit);
    var fitting := BestOfKind(CodePoint, content, start, limit, candidates, limits, count, whole);
    if fitting.Some? { return fitting.value; }
    var single := start + CodePointWidth(content, start);
    single := if single < limit then single else limit;
    return Boundary(single, single);
  }

  /** The rule for the piece starting at `start`: the whole remainder if it fits, else the best sentence
  end, else the best whitespace, else the best whole-code-point cut, else one code point. */
  ghost predicate IsNextPiece(content: Text, start: nat, end: nat, limits: Limits, count: Counter, b: Boundary)
    requires start < end <= |content|
  {
    if Fits(content, start, end, limits, count) then b == Boundary(Trimmed(content, start, end), end)
    else if !NoneFits(Sentence, content, start, end, limits, count) then IsBest(Sentence, content, start, end, limits, count, b)
    else if !NoneFits(Space, content, start, end, limits, count) then IsBest(Space, content, start, end, limits, count, b)
    else if !NoneFits(CodePoint, content, start, end, limits, count) then IsBest(CodePoint, content, start, end, limits, count, b)
    else b == Boundary(SinglePointEnd(content, start, end), SinglePointEnd(content, start, end))
  }

  /** The chosen piece is not empty, ends where only whitespace follows up to the next scan position,
  and the scan moves on. */
  lemma NextPieceAdvances(content: Text, start: nat, end: nat, limits: Limits, count: Counter, b: Boundary)
    requires start < end <= |content| && IsNextPiece(content, start, end, limits, count, b)
    ensures start < b.end <= b.next <= end
    ensures BlankBetween(content, b.end, b.next)
  {
  }

  method NextPiece(content: Text, start: nat, end: nat, limits: Limits, count: Counter, ghost whole: bool) returns (b: Boundary)
    requires start < end <= |content|
    requires whole ==> IsWhole(content, start, end)
    ensures IsNextPiece(content, start, end, limits, count, b)
  {
    var remainder := TrimmedEnd(content, start, end);
    if remainder > start {
      if whole { TrimmedIsWhole(content, start, end); }
      var tokens := Measure(content, start, remainder, count, whole);
      if tokens <= limits.maxTokens { return Boundary(remainder, end); }
    }
    var sentences := SentenceBoundaries(content, start, end);
    var best := BestOfKind(Sentence, content, start, end, sentences, limits, count, whole);
    if best.Some? { return best.value; }
    var spaces := WhitespaceBoundaries(content, start, end);
    best := BestOfKind(Space, content, start, end, spaces, limits, count, whole);
    if best.Some? { return best.value; }
    b := HardBoundary(content, start, end, limits, count, whole);
  }

  // ---------- splitting a range ----------

  /** Where scanning for piece `k` starts. */
  function ScanStart(range: Range, cuts: seq<Boundary>, k: nat): nat
    requires k <= |cuts|
  {
    if k == 0 then range.start else cuts[k - 1].next
  }

  /** Piece `k` starts at the first text at or after its scan start and ends by the rule. */
  ghost predicate IsPieceAt(content: Text, range: Range, limits: Limits, count: Counter, pieces: seq<Range>, cuts: seq<Boundary>, k: nat)
    requires InSource(content, range) && k < |pieces| == |cuts|
  {
    && pieces[k].start == Skipped(content, ScanStart(range, cuts, k), range.end) < range.end
    && pieces[k].end == cuts[k].end
    && IsNextPiece(content, pieces[k].start, range.end, limits, count, cuts[k])
  }

  /** `pieces` cut `range` from the front, piece `k` by the boundary `cuts[k]`. */
  ghost predicate IsCut(content: Text, range: Range, limits: Limits, count: Counter, pieces: seq<Range>, cuts: seq<Boundary>)
    requires InSource(content, range)
  {
    |cuts| == |pieces| && forall k :: 0 <= k < |pieces| ==> IsPieceAt(content, range, limits, count, pieces, cuts, k)
  }

  /** Exactly what `SplitRange` answers: the range itself when it fits or holds no text, else pieces
  cut from the front until only whitespace is left. */
  ghost predicate IsSplit(content: Text, range: Range, limits: Limits, count: Counter, pieces: seq<Range>, cuts: seq<Boundary>)
    requires InSource(content, range)
  {
    if count(Slice(content, range.start, range.end)) <= limits.maxTokens || BlankBetween(content, range.start, range.end)
    then pieces == [range] && cuts == []
    else
      && pieces != [] && IsCut(content, range, limits, count, pieces, cuts)
      && BlankBetween(content, ScanStart(range, cuts, |cuts|), range.end)
  }

  lemma CutNext(content: Text, range: Range, limits: Limits, count: Counter, pieces: seq<Range>, cuts: seq<Boundary>,
      start: nat, b: Boundary)
    requires InSource(content, range) && IsCut(content, range, limits, count, pieces, cuts)
    requires start == Skipped(content, ScanStart(range, cuts, |cuts|), range.end) < range.end
    requires IsNextPiece(content, start, range.end, limits, count, b)
    ensures IsCut(content, range, limits, count, pieces + [Range(start, b.end)], cuts + [b])
  {
    var ps, cs := pieces + [Range(start, b.end)], cuts + [b];
    forall k | 0 <= k < |ps| ensures IsPieceAt(content, range, limits, count, ps, cs, k) {
      if k < |pieces| {
        assert IsPieceAt(content, range, limits, count, pieces, cuts, k);
        assert ScanStart(range, cs, k) == ScanStart(range, cuts, k);
      } else {
        assert ScanStart(range, cs, k) == ScanStart(range, cuts, |cuts|);
      }
    }
  }

  method SplitRange(content: Text, range: Range, limits: Limits, count: Counter)
    returns (pieces: seq<Range>, ghost cuts: seq<Boundary>)
    requires InSource(content, range)
    ensures IsSplit(content, range, limits, count, pieces, cuts)
    ensures pieces != [] && InOrder(pieces)
    ensures forall k :: 0 <= k < |pieces| ==> range.start <= pieces[k].start && pieces[k].end <= range.end
    ensures forall i: nat :: Holds(range, i) && !SpaceAt(content, i) ==> Covered(pieces, i)
  {
    cuts := [];
    ghost var whole := IsWhole(content, range.start, range.end);
    if whole { WholeSlice(content, range.start, range.end); }
    var tokens := Measure(content, range.start, range.end, count, whole);
    if tokens <= limits.maxTokens {
      SplitConserves(content, range, limits, count, [range], []);
      return [range], [];
    }
    pieces := [];
    var cursor := range.start;
    while cursor < range.end
      invariant range.start <= cursor <= range.end
      invariant IsCut(content, range, limits, count, pieces, cuts)
      invariant cursor == ScanStart(range, cuts, |cuts|)
      invariant pieces == [] ==> cursor == range.start
      invariant whole ==> !DividesPair(content, cursor)
      decreases range.end - cursor
    {
      var scan := SkipWhitespace(content, cursor, range.end);
      if scan >= range.end { break; }
      if whole { SkippedKeepsPairs(content, cursor, range.end); }
      var boundary := NextPiece(content, scan, range.end, limits, count, whole);
      NextPieceAdvances(content, scan, range.end, limits, count, boundary);
      if whole { BoundaryKeepsPairs(content, scan, range.end, limits, count, boundary); }
      CutNext(content, range, limits, count, pieces, cuts, scan, boundary);
      if boundary.end > scan {
        pieces, cuts := pieces + [Range(scan, boundary.end)], cuts + [boundary];
      }
      cursor := if boundary.next > scan + 1 then boundary.next else scan + 1;
    }
    if pieces != [] { FirstPieceIsText(content, range, limits, count, pieces, cuts); }
    pieces := if |pieces| > 0 then pieces else [range];
    SplitConserves(content, range, limits, count, pieces, cuts);
  }

  lemma FirstPieceIsText(content: Text, range: Range, limits: Limits, count: Counter, pieces: seq<Range>, cuts: seq<Boundary>)
    requires InSource(content, range) && IsCut(content, range, limits, count, pieces, cuts) && pieces != []
    ensures !BlankBetween(content, range.start, range.end)
  {
    assert IsPieceAt(content, range, limits, count, pieces, cuts, 0);
    assert !SpaceAt(content, pieces[0].start);
  }

  method SkipWhitespace(content: Text, from: nat, end: nat) returns (cursor: nat)
    ensures cursor == Skipped(content, from, end)
  {
    cursor := from;
    while cursor < end && SpaceAt(content, cursor)
      invariant Skipped(content, cursor, end) == Skipped(content, from, end)
    {
      cursor := cursor + 1;
    }
  }

  // ---------- what splitting keeps ----------

  /** Ranges in source order that do not overlap. */
  ghost predicate InOrder(ranges: seq<Range>) {
    && (forall k :: 0 <= k < |ranges| ==> ranges[k].start <= ranges[k].end)
    && (forall j, k :: 0 <= j < k < |ranges| ==> ranges[j].end <= ranges[k].start)
  }

  predicate Holds(r: Range, i: int) { r.start <= i < r.end }

  ghost predicate Covered(ranges: seq<Range>, i: int) { exists k :: 0 <= k < |ranges| && Holds(ranges[k], i) }

  lemma PieceInRange(content: Text, range: Range, limits: Limits, count: Counter, pieces: seq<Range>, cuts: seq<Boundary>, k: nat)
    requires InSource(content, range) && IsCut(content, range, limits, count, pieces, cuts) && k < |pieces|
    ensures range.start <= ScanStart(range, cuts, k) <= pieces[k].start < pieces[k].end <= cuts[k].next <= range.end
    ensures BlankBetween(content, ScanStart(range, cuts, k), pieces[k].start)
    ensures BlankBetween(content, pieces[k].end, cuts[k].next)
    decreases k
  {
    assert IsPieceAt(content, range, limits, count, pieces, cuts, k);
    NextPieceAdvances(content, pieces[k].start, range.end, limits, count, cuts[k]);
    if k > 0 { PieceInRange(content, range, limits, count, pieces, cuts, k - 1); }
  }

  lemma {:induction false} CutIsOrdered(content: Text, range: Range, limits: Limits, count: Counter,
      pieces: seq<Range>, cuts: seq<Boundary>, j: nat, k: nat)
    requires InSource(content, range) && IsCut(content, range, limits, count, pieces, cuts) && j < k < |pieces|
    ensures pieces[j].end <= pieces[k].start
    decreases k
  {
    PieceInRange(content, range, limits, count, pieces, cuts, k);
    PieceInRange(content, range, limits, count, pieces, cuts, k - 1);
    if j < k - 1 { CutIsOrdered(content, range, limits, count, pieces, cuts, j, k - 1); }
  }

  lemma {:induction false} CutCovers(content: Text, range: Range, limits: Limits, count: Counter,
      pieces: seq<Range>, cuts: seq<Boundary>, n: nat, i: nat)
    requires InSource(content, range) && IsCut(content, range, limits, count, pieces, cuts) && n <= |pieces|
    requires range.start <= i < ScanStart(range, cuts, n) && !SpaceAt(content, i)
    ensures Covered(pieces, i)
    decreases n
  {
    if n > 0 {
      var k := n - 1;
      PieceInRange(content, range, limits, count, pieces, cuts, k);
      if i < ScanStart(range, cuts, k) { CutCovers(content, range, limits, count, pieces, cuts, k, i); }
      else { assert Holds(pieces[k], i); }
    }
  }

  /** Splitting conserves text for every counter: the pieces are in order, apart and inside the range,
  no piece is empty unless the range is, and each code unit of the range that is not whitespace is in
  exactly one piece. */
  lemma SplitConserves(content: Text, range: Range, limits: Limits, count: Counter, pieces: seq<Range>, cuts: seq<Boundary>)
    requires InSource(content, range) && IsSplit(content, range, limits, count, pieces, cuts)
    ensures InOrder(pieces) && pieces != []
    ensures forall k :: 0 <= k < |pieces| ==> range.start <= pieces[k].start && pieces[k].end <= range.end
    ensures forall k :: 0 <= k < |pieces| ==> pieces[k].start < pieces[k].end || pieces == [range]
    ensures forall i: nat :: Holds(range, i) && !SpaceAt(content, i) ==> Covered(pieces, i)
    ensures forall i, j, k :: 0 <= j < |pieces| && 0 <= k < |pieces| && Holds(pieces[j], i) && Holds(pieces[k], i) ==> j == k
  {
    if pieces == [range] && cuts == [] {
      assert forall i :: Holds(range, i) ==> Holds(pieces[0], i);
    } else {
      forall k | 0 <= k < |pieces| ensures range.start <= pieces[k].start < pieces[k].end <= range.end {
        PieceInRange(content, range, limits, count, pieces, cuts, k);
      }
      forall j, k | 0 <= j < k < |pieces| ensures pieces[j].end <= pieces[k].start {
        CutIsOrdered(content, range, limits, count, pieces, cuts, j, k);
      }
      forall i: nat | Holds(range, i) && !SpaceAt(content, i) ensures Covered(pieces, i) {
        CutCovers(content, range, limits, count, pieces, cuts, |pieces|, i);
      }
    }
  }

  /** `r` is where the text of `content[start..b]` ends, for a cut at `b` that divides no surrogate pair. */
  ghost predicate EndsText(content: Text, start: nat, end: nat, r: nat, b: nat) {
    && start < r <= b <= end <= |content| && !SpaceAt(content, r - 1) && BlankBetween(content, r, b)
    && (b < end ==> !(IsHigh(content[b - 1]) && IsLow(content[b])))
  }

  /** One whole code point, emitted because no prefix of the remainder that holds text and divides no pair fits. */
  ghost predicate IsUnavoidable(content: Text, end: nat, limits: Limits, count: Counter, piece: Range) {
    && piece.start < piece.end <= end <= |content|
    && (piece.end == piece.start + 1 ||
        (piece.end == piece.start + 2 && IsHigh(content[piece.start]) && IsLow(content[piece.start + 1])))
    && forall r: nat, b: nat :: EndsText(content, piece.start, end, r, b) ==> count(content[piece.start..r]) > limits.maxTokens
  }

  lemma TextEndIsTrimmed(content: Text, start: nat, end: nat, r: nat, b: nat)
    requires EndsText(content, start, end, r, b)
    ensures Trimmed(content, start, b) == r
  {
    assert BlankBetween(content, Trimmed(content, start, b), b);
  }

  lemma NothingFits(content: Text, end: nat, limits: Limits, count: Counter, piece: Range)
    requires piece.start < end <= |content| && piece.end == SinglePointEnd(content, piece.start, end)
    requires NoneFits(CodePoint, content, piece.start, end, limits, count)
    ensures IsUnavoidable(content, end, limits, count, piece)
  {
    forall r: nat, b: nat | EndsText(content, piece.start, end, r, b) ensures count(content[piece.start..r]) > limits.maxTokens {
      TextEndIsTrimmed(content, piece.start, end, r, b);
      assert IsCandidate(CodePoint, content, piece.start, end, b);
      assert Slice(content, piece.start, r) == content[piece.start..r];
    }
  }

  /** Every piece fits the limit, is one unavoidable code point, or is the untouched whitespace range. */
  lemma PiecesFit(content: Text, range: Range, limits: Limits, count: Counter, pieces: seq<Range>, cuts: seq<Boundary>)
    requires InSource(content, range) && IsSplit(content, range, limits, count, pieces, cuts)
    ensures forall k :: 0 <= k < |pieces| ==>
      || count(Slice(content, pieces[k].start, pieces[k].end)) <= limits.maxTokens
      || IsUnavoidable(content, range.end, limits, count, pieces[k])
      || (pieces == [range] && BlankBetween(content, range.start, range.end))
  {
    if cuts != [] {
      forall k | 0 <= k < |pieces|
        ensures count(Slice(content, pieces[k].start, pieces[k].end)) <= limits.maxTokens
             || IsUnavoidable(content, range.end, limits, count, pieces[k])
      {
        assert IsPieceAt(content, range, limits, count, pieces, cuts, k);
        if NoneFits(CodePoint, content, pieces[k].start, range.end, limits, count) {
          if cuts[k].end == SinglePointEnd(content, pieces[k].start, range.end) { NothingFits(content, range.end, limits, count, pieces[k]); }
        }
      }
    }
  }

  /** A boundary chosen by the rule divides a pair only where the range itself ends inside one. */
  lemma BoundaryKeepsPairs(content: Text, start: nat, end: nat, limits: Limits, count: Counter, b: Boundary)
    requires start < end <= |content| && IsNextPiece(content, start, end, limits, count, b)
    requires !DividesPair(content, end)
    ensures !DividesPair(content, b.end) && !DividesPair(content, b.next)
  {
    if b.end < b.next {
      assert SpaceAt(content, b.end);
    }
  }

  lemma ScanStartKeepsPairs(content: Text, range: Range, limits: Limits, count: Counter, pieces: seq<Range>, cuts: seq<Boundary>, k: nat)
    requires InSource(content, range) && IsCut(content, range, limits, count, pieces, cuts) && k <= |pieces|
    requires !DividesPair(content, range.start) && !DividesPair(content, range.end)
    ensures !DividesPair(content, ScanStart(range, cuts, k))
  {
    if k > 0 {
      assert IsPieceAt(content, range, limits, count, pieces, cuts, k - 1);
      BoundaryKeepsPairs(content, pieces[k - 1].start, range.end, limits, count, cuts[k - 1]);
    }
  }

  lemma SkippedKeepsPairs(content: Text, from: nat, end: nat)
    requires !DividesPair(content, from)
    ensures !DividesPair(content, Skipped(content, from, end))
  {
    var s := Skipped(content, from, end);
    assert s > from ==> SpaceAt(content, s - 1);
  }

  /** No range starts or ends inside a surrogate pair. */
  ghost predicate KeepsPairs(content: Text, rs: seq<Range>) {
    forall k :: 0 <= k < |rs| ==> !DividesPair(content, rs[k].start) && !DividesPair(content, rs[k].end)
  }

  /** If the range does not start or end inside a surrogate pair, no piece does. */
  lemma SplitKeepsPairs(content: Text, range: Range, limits: Limits, count: Counter, pieces: seq<Range>, cuts: seq<Boundary>)
    requires InSource(content, range) && IsSplit(content, range, limits, count, pieces, cuts)
    requires !DividesPair(content, range.start) && !DividesPair(content, range.end)
    ensures forall k :: 0 <= k < |pieces| ==> !DividesPair(content, pieces[k].start) && !DividesPair(content, pieces[k].end)
  {
    if cuts != [] {
      forall k | 0 <= k < |pieces| ensures !DividesPair(content, pieces[k].start) && !DividesPair(content, pieces[k].end) {
        assert IsPieceAt(content, range, limits, count, pieces, cuts, k);
        BoundaryKeepsPairs(content, pieces[k].start, range.end, limits, count, cuts[k]);
        ScanStartKeepsPairs(content, range, limits, count, pieces, cuts, k);
        SkippedKeepsPairs(content, ScanStart(range, cuts, k), range.end);
      }
    }
  }
}

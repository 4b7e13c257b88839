/** The plain-text chunker from source to blocks, and its agreement with the evidence sweep. */
module TextChunking {
  import opened Utf16
  import opened Splitting
  import opened Grouping
  import Evidence
  import Lines

  // ---------- divisible and atomic ranges ----------

  /** Divisible ranges are split; atomic ones are kept whole. */
  method SplitDivisible(content: Text, ranges: seq<AtomicRange>, limits: Limits, count: Counter) returns (pieces: seq<AtomicRange>)
    requires InOrder(RangesOf(ranges)) && forall r :: r in ranges ==> InSource(content, r.range)
    ensures InOrder(RangesOf(pieces))
    ensures forall i: nat :: Covered(RangesOf(ranges), i) && !SpaceAt(content, i) ==> Covered(RangesOf(pieces), i)
    ensures KeepsPairs(content, RangesOf(ranges)) ==> KeepsPairs(content, RangesOf(pieces))
    ensures forall p :: p in pieces ==> Within(ranges, |ranges|, p.range) && (p.atomic ==> p in ranges)
    ensures forall p :: p in pieces && !p.atomic ==> IsSmall(content, ranges, limits, count, p.range)
  {
    pieces := [];
    for n := 0 to |ranges|
      invariant IsSplitUpTo(content, ranges, n, pieces)
      invariant forall p :: p in pieces && p.atomic ==> p in ranges
      invariant forall p :: p in pieces && !p.atomic ==> IsSmall(content, ranges, limits, count, p.range)
    {
      var next := SplitOne(content, ranges[n], limits, count);
      SplitNext(content, ranges, n, pieces, next);
      forall p | p in next && !p.atomic ensures IsSmall(content, ranges, limits, count, p.range) {
        assert ranges[n] in ranges;
      }
      pieces := pieces + next;
    }
  }

  /** The pieces of one range. */
  method SplitOne(content: Text, r: AtomicRange, limits: Limits, count: Counter) returns (pieces: seq<AtomicRange>)
    requires InSource(content, r.range)
    ensures IsCutOf(content, r.range, RangesOf(pieces))
    ensures forall p :: p in pieces ==> p.atomic == r.atomic && (p.atomic ==> p == r)
    ensures forall p :: p in pieces && !p.atomic ==>
      count(Slice(content, p.range.start, p.range.end)) <= limits.maxTokens || IsExcused(content, r.range, limits, count, p.range)
  {
    if r.atomic {
      WholeRange(content, r.range);
      return [r];
    }
    var parts;
    ghost var cuts;
    parts, cuts := SplitRange(content, r.range, limits, count);
    SplitConserves(content, r.range, limits, count, parts, cuts);
    PiecesFit(content, r.range, limits, count, parts, cuts);
    if !DividesPair(content, r.range.start) && !DividesPair(content, r.range.end) {
      SplitKeepsPairs(content, r.range, limits, count, parts, cuts);
    }
    pieces := seq(|parts|, k requires 0 <= k < |parts| => AtomicRange(parts[k], false));
    assert RangesOf(pieces) == parts;
  }

  /** Fits the limit; or comes from a divisible range, as one code point where no whole-code-point
  prefix fits, or as the whole range when it holds no text. */
  ghost predicate IsSmall(content: Text, ranges: seq<AtomicRange>, limits: Limits, count: Counter, p: Range) {
    || count(Slice(content, p.start, p.end)) <= limits.maxTokens
    || exists r :: r in ranges && !r.atomic && IsExcused(content, r.range, limits, count, p)
  }

  ghost predicate IsExcused(content: Text, range: Range, limits: Limits, count: Counter, p: Range) {
    || IsUnavoidable(content, range.end, limits, count, p)
    || (p == range && BlankBetween(content, range.start, range.end))
  }

  /** `r` lies inside one of the first `n` ranges. */
  ghost predicate Within(ranges: seq<AtomicRange>, n: int, r: Range) {
    exists k :: 0 <= k < n && k < |ranges| && ranges[k].range.start <= r.start && r.end <= ranges[k].range.end
  }

  /** `parts` is what splitting the one range `r` may produce. */
  ghost predicate IsCutOf(content: Text, r: Range, parts: seq<Range>) {
    && InOrder(parts)
    && (forall k :: 0 <= k < |parts| ==> r.start <= parts[k].start && parts[k].end <= r.end)
    && (forall i: nat :: Holds(r, i) && !SpaceAt(content, i) ==> Covered(parts, i))
    && (!DividesPair(content, r.start) && !DividesPair(content, r.end) ==> KeepsPairs(content, parts))
  }

  lemma WholeRange(content: Text, r: Range)
    requires InSource(content, r)
    ensures IsCutOf(content, r, RangesOf([AtomicRange(r, true)]))
  {
    var parts := RangesOf([AtomicRange(r, true)]);
    assert forall i :: Holds(r, i) ==> Holds(parts[0], i);
  }

  /** The pieces so far come from the first `n` ranges and keep what those ranges hold. */
  ghost predicate IsSplitUpTo(content: Text, ranges: seq<AtomicRange>, n: int, pieces: seq<AtomicRange>) {
    && 0 <= n <= |ranges| && InOrder(RangesOf(pieces))
    && (forall p :: p in pieces ==> Within(ranges, n, p.range))
    && (forall i: nat, k :: 0 <= k < n && Holds(ranges[k].range, i) && !SpaceAt(content, i) ==> Covered(RangesOf(pieces), i))
    && (KeepsPairs(content, RangesOf(ranges)) ==> KeepsPairs(content, RangesOf(pieces)))
  }

  lemma NextInOrder(ranges: seq<AtomicRange>, n: int, pieces: seq<AtomicRange>, ns: seq<Range>)
    requires 0 <= n < |ranges| && InOrder(RangesOf(ranges)) && InOrder(RangesOf(pieces)) && InOrder(ns)
    requires forall p :: p in pieces ==> Within(ranges, n, p.range)
    requires forall k :: 0 <= k < |ns| ==> ranges[n].range.start <= ns[k].start
    ensures InOrder(RangesOf(pieces) + ns)
  {
    var rs, ps := RangesOf(ranges), RangesOf(pieces);
    forall j, k | 0 <= j < |ps| && 0 <= k < |ns| ensures ps[j].end <= ns[k].start {
      assert pieces[j] in pieces;
      var m :| 0 <= m < n && ranges[m].range.start <= ps[j].start && ps[j].end <= ranges[m].range.end;
      assert rs[m].end <= rs[n].start;
    }
  }

  lemma NextCovers(a: seq<Range>, b: seq<Range>, i: int)
    ensures Covered(a + b, i) <==> Covered(a, i) || Covered(b, i)
  {
    if k :| 0 <= k < |a| && Holds(a[k], i) { assert Holds((a + b)[k], i); }
    if k :| 0 <= k < |b| && Holds(b[k], i) { assert Holds((a + b)[|a| + k], i); }
  }

  lemma NextWithin(ranges: seq<AtomicRange>, n: int, pieces: seq<AtomicRange>, next: seq<AtomicRange>)
    requires 0 <= n < |ranges|
    requires forall p :: p in pieces ==> Within(ranges, n, p.range)
    requires forall k :: 0 <= k < |next| ==>
      ranges[n].range.start <= next[k].range.start && next[k].range.end <= ranges[n].range.end
    ensures forall p :: p in pieces + next ==> Within(ranges, n + 1, p.range)
  {
    forall p | p in pieces + next ensures Within(ranges, n + 1, p.range) {
      if p in pieces {
        var m :| 0 <= m < n && ranges[m].range.start <= p.range.start && p.range.end <= ranges[m].range.end;
      } else {
        var k :| 0 <= k < |next| && next[k] == p;
      }
    }
  }

  lemma SplitNext(content: Text, ranges: seq<AtomicRange>, n: int, pieces: seq<AtomicRange>, next: seq<AtomicRange>)
    requires n < |ranges| && InOrder(RangesOf(ranges)) && IsSplitUpTo(content, ranges, n, pieces)
    requires IsCutOf(content, ranges[n].range, RangesOf(next))
    ensures IsSplitUpTo(content, ranges, n + 1, pieces + next)
  {
    var ps, ns := RangesOf(pieces), RangesOf(next);
    assert RangesOf(pieces + next) == ps + ns;
    forall k | 0 <= k < |next|
      ensures ranges[n].range.start <= next[k].range.start && next[k].range.end <= ranges[n].range.end
    {
      assert ns[k] == next[k].range;
    }
    NextInOrder(ranges, n, pieces, ns);
    NextWithin(ranges, n, pieces, next);
    forall i: nat, k | 0 <= k <= n && Holds(ranges[k].range, i) && !SpaceAt(content, i) ensures Covered(ps + ns, i) {
      NextCovers(ps, ns, i);
    }
    assert KeepsPairs(content, RangesOf(ranges)) ==>
      !DividesPair(content, RangesOf(ranges)[n].start) && !DividesPair(content, RangesOf(ranges)[n].end);
  }

  /** Split, then group: the groups are in order and apart, cut no surrogate pair, and hold every
  code unit of the ranges that is not whitespace. */
  method SplitAndGroup(content: Text, ranges: seq<AtomicRange>, limits: Limits, count: Counter) returns (groups: seq<Group>)
    requires InOrder(RangesOf(ranges)) && forall r :: r in ranges ==> InSource(content, r.range)
    ensures InOrder(GroupRangesOf(groups))
    ensures forall i: nat :: Covered(RangesOf(ranges), i) && !SpaceAt(content, i) ==> Covered(GroupRangesOf(groups), i)
    ensures KeepsPairs(content, RangesOf(ranges)) ==> KeepsPairs(content, GroupRangesOf(groups))
    ensures forall g :: g in groups ==> g.tokens == count(Slice(content, g.range.start, g.range.end))
    ensures forall g :: g in groups && g.tokens > limits.maxTokens ==>
      (exists r :: r in ranges && r.atomic && r.range == g.range) || IsSmall(content, ranges, limits, count, g.range)
  {
    var pieces := SplitDivisible(content, ranges, limits, count);
    ghost var cuts;
    groups, cuts := GroupRanges(content, pieces, limits, count);
    GroupsSpanRuns(content, pieces, limits, count, groups, cuts);
    GroupsAreOrdered(RangesOf(pieces), GroupRangesOf(groups), cuts);
    forall k | 0 <= k < |groups|
      ensures groups[k].tokens == count(Slice(content, groups[k].range.start, groups[k].range.end))
      ensures groups[k].tokens > limits.maxTokens ==>
        (exists r :: r in ranges && r.atomic && r.range == groups[k].range) || IsSmall(content, ranges, limits, count, groups[k].range)
    {
      GroupOfPieces(content, pieces, limits, count, groups, cuts, k);
    }
    if KeepsPairs(content, RangesOf(ranges)) {
      forall k | 0 <= k < |groups|
        ensures !DividesPair(content, groups[k].range.start) && !DividesPair(content, groups[k].range.end)
      {
        assert SpansRun(RangesOf(pieces), GroupRangesOf(groups), cuts, k);
        assert GroupRangesOf(groups)[k] == groups[k].range;
      }
    }
  }

  /** A group over the limit is one piece. */
  lemma GroupOfPieces(content: Text, pieces: seq<AtomicRange>, limits: Limits, count: Counter, groups: seq<Group>, cuts: seq<nat>, k: nat)
    requires IsGrouping(content, pieces, limits, count, groups, cuts, |pieces|) && k < |groups|
    ensures groups[k].tokens == count(Slice(content, groups[k].range.start, groups[k].range.end))
    ensures groups[k].tokens > limits.maxTokens ==> exists p :: p in pieces && p.range == groups[k].range
  {
    assert IsGroup(content, pieces, limits, count, cuts[k], cuts[k + 1], groups[k]);
    OversizedGroups(content, pieces, limits, count, groups, cuts, k);
    assert pieces[cuts[k]] in pieces;
  }

  // ---------- evidence over any prepared ranges ----------

  /** Split, group, then sweep: an evidence span whose text lies in the given ranges is reported as
  completely prepared, whatever the token counter. */
  method PrepareThenSweep(content: Text, ranges: seq<AtomicRange>, limits: Limits, count: Counter, start: nat, end: nat)
    returns (complete: bool)
    requires InOrder(RangesOf(ranges)) && forall r :: r in ranges ==> InSource(content, r.range)
    requires start <= end <= |content|
    requires Evidence.IsCovered(content, start, end, RangesOf(ranges))
    ensures complete
  {
    var groups := SplitAndGroup(content, ranges, limits, count);
    complete := Evidence.Sweep(content, start, end, GroupRangesOf(groups));
  }

  // ---------- plain text ----------

  predicate IsBlankLine(line: Lines.Line) { IsBlank(line.text) }

  /** Where line `k` starts; past the last line, the end of the source. */
  function LineStart(content: Text, lines: seq<Lines.Line>, k: nat): nat {
    if k < |lines| then lines[k].start else |content|
  }

  lemma LineStartsIncrease(content: Text, lines: seq<Lines.Line>, j: nat, k: nat)
    requires Lines.Tiles(content, lines, |content|) && j < k <= |lines|
    ensures lines[j].start < lines[j].fullEnd <= LineStart(content, lines, k)
  {
    if k < |lines| { Lines.LinesIncrease(content, lines, |content|, j, k); }
    else if j + 1 < k { Lines.LinesIncrease(content, lines, |content|, j, k - 1); }
  }

  /** Text inside a run of lines lies in the text part of one of them, and that line is not blank. */
  lemma {:induction false} TextInRun(content: Text, lines: seq<Lines.Line>, a: nat, b: nat, i: nat) returns (k: nat)
    requires Lines.Tiles(content, lines, |content|) && a < b <= |lines|
    requires lines[a].start <= i < LineStart(content, lines, b) && !SpaceAt(content, i)
    ensures a <= k < b && lines[k].start <= i < lines[k].contentEnd && !IsBlankLine(lines[k])
    decreases b - a
  {
    assert Lines.IsLine(content, lines[a]);
    if i < lines[a].fullEnd {
      k := a;
      assert lines[a].text[i - lines[a].start] == content[i];
    } else {
      assert a + 1 < |lines| ==> lines[a].fullEnd == lines[a + 1].start;
      k := TextInRun(content, lines, a + 1, b, i);
    }
  }

  ghost predicate IsParagraph(content: Text, p: Range) {
    && InSource(content, p) && !BlankBetween(content, p.start, p.end)
    && !DividesPair(content, p.start) && !DividesPair(content, p.end)
  }

  ghost predicate CoversUpTo(content: Text, ps: seq<Range>, limit: int) {
    forall i: nat :: i < limit && !SpaceAt(content, i) ==> Covered(ps, i)
  }

  /** The paragraphs found before offset `limit`: in order, each with text, together all of the text. */
  ghost predicate AreParagraphs(content: Text, limit: int, paragraphs: seq<Range>) {
    && InOrder(paragraphs)
    && (forall k :: 0 <= k < |paragraphs| ==> IsParagraph(content, paragraphs[k]) && paragraphs[k].end <= limit)
    && CoversUpTo(content, paragraphs, limit)
  }

  lemma SkipBlankLine(content: Text, lines: seq<Lines.Line>, index: nat, paragraphs: seq<Range>)
    requires Lines.Tiles(content, lines, |content|) && index < |lines| && IsBlankLine(lines[index])
    requires AreParagraphs(content, LineStart(content, lines, index), paragraphs)
    ensures AreParagraphs(content, LineStart(content, lines, index + 1), paragraphs)
  {
    LineStartsIncrease(content, lines, index, index + 1);
    forall i: nat | i < LineStart(content, lines, index + 1) && !SpaceAt(content, i) ensures Covered(paragraphs, i) {
      if i >= lines[index].start {
        var k := TextInRun(content, lines, index, index + 1, i);
        assert false;
      }
    }
  }

  /** Neither end of a line's text divides a surrogate pair. */
  lemma LineKeepsPairs(content: Text, lines: seq<Lines.Line>, k: nat)
    requires Lines.Tiles(content, lines, |content|) && k < |lines|
    ensures !DividesPair(content, lines[k].start) && !DividesPair(content, lines[k].contentEnd)
  {
    assert Lines.IsLine(content, lines[k]);
    if k > 0 {
      assert Lines.IsLine(content, lines[k - 1]);
      assert lines[k - 1].fullEnd == lines[k].start;
    }
  }

  function ParagraphOf(lines: seq<Lines.Line>, a: nat, b: nat): Range
    requires a < b <= |lines|
  {
    Range(lines[a].start, lines[b - 1].contentEnd)
  }

  lemma ParagraphBounds(content: Text, lines: seq<Lines.Line>, a: nat, b: nat)
    requires Lines.Tiles(content, lines, |content|) && a < b <= |lines|
    ensures lines[a].start <= lines[a].contentEnd <= lines[b - 1].contentEnd <= LineStart(content, lines, b) <= |content|
  {
    assert Lines.IsLine(content, lines[a]) && Lines.IsLine(content, lines[b - 1]);
    LineStartsIncrease(content, lines, b - 1, b);
    if a < b - 1 { Lines.LinesIncrease(content, lines, |content|, a, b - 1); }
    if b < |lines| { assert Lines.IsLine(content, lines[b]); }
  }

  lemma ParagraphIsText(content: Text, lines: seq<Lines.Line>, a: nat, b: nat)
    requires Lines.Tiles(content, lines, |content|) && a < b <= |lines| && !IsBlankLine(lines[a])
    ensures !BlankBetween(content, ParagraphOf(lines, a, b).start, ParagraphOf(lines, a, b).end)
  {
    var line := lines[a];
    ParagraphBounds(content, lines, a, b);
    assert Lines.IsLine(content, line);
    var m :| 0 <= m < |line.text| && !IsWhitespace(line.text[m]);
    assert content[line.start + m] == line.text[m];
    assert !SpaceAt(content, line.start + m);
  }

  lemma TextInParagraph(content: Text, lines: seq<Lines.Line>, a: nat, b: nat, i: nat)
    requires Lines.Tiles(content, lines, |content|) && a < b <= |lines|
    requires lines[a].start <= i < LineStart(content, lines, b) && !SpaceAt(content, i)
    ensures Holds(ParagraphOf(lines, a, b), i)
  {
    var k := TextInRun(content, lines, a, b, i);
    ParagraphBounds(content, lines, k, b);
  }

  lemma ParagraphCovers(content: Text, lines: seq<Lines.Line>, a: nat, b: nat, paragraphs: seq<Range>, i: nat)
    requires Lines.Tiles(content, lines, |content|) && a < b <= |lines|
    requires i < lines[a].start ==> Covered(paragraphs, i)
    requires i < LineStart(content, lines, b) && !SpaceAt(content, i)
    ensures Covered(paragraphs + [ParagraphOf(lines, a, b)], i)
  {
    var p := ParagraphOf(lines, a, b);
    NextCovers(paragraphs, [p], i);
    if i >= lines[a].start {
      TextInParagraph(content, lines, a, b, i);
      assert Holds([p][0], i);
    }
  }

  lemma NextParagraph(content: Text, ps: seq<Range>, limit: int, p: Range, next: int)
    requires InOrder(ps) && forall k :: 0 <= k < |ps| ==> IsParagraph(content, ps[k]) && ps[k].end <= limit
    requires IsParagraph(content, p) && limit <= p.start && p.end <= next
    ensures InOrder(ps + [p])
    ensures forall k :: 0 <= k < |ps + [p]| ==> IsParagraph(content, (ps + [p])[k]) && (ps + [p])[k].end <= next
  {
  }

  lemma AddParagraph(content: Text, lines: seq<Lines.Line>, a: nat, b: nat, paragraphs: seq<Range>)
    requires Lines.Tiles(content, lines, |content|) && a < b <= |lines| && !IsBlankLine(lines[a])
    requires AreParagraphs(content, LineStart(content, lines, a), paragraphs)
    ensures IsParagraph(content, ParagraphOf(lines, a, b))
    ensures AreParagraphs(content, LineStart(content, lines, b), paragraphs + [ParagraphOf(lines, a, b)])
  {
    var p := ParagraphOf(lines, a, b);
    assert IsParagraph(content, p) && p.end <= LineStart(content, lines, b) by {
      ParagraphBounds(content, lines, a, b);
      ParagraphIsText(content, lines, a, b);
      LineKeepsPairs(content, lines, a);
      LineKeepsPairs(content, lines, b - 1);
    }
    NextParagraph(content, paragraphs, lines[a].start, p, LineStart(content, lines, b));
    forall i: nat | i < LineStart(content, lines, b) && !SpaceAt(content, i) ensures Covered(paragraphs + [p], i) {
      ParagraphCovers(content, lines, a, b, paragraphs, i);
    }
  }

  /** Lines `first .. last` are not blank, and the run cannot be extended either way. */
  datatype Run = Run(first: nat, last: nat)

  ghost predicate IsMaximalRun(lines: seq<Lines.Line>, run: Run) {
    && run.first < run.last <= |lines|
    && (forall k :: run.first <= k < run.last ==> !IsBlankLine(lines[k]))
    && (run.first > 0 ==> IsBlankLine(lines[run.first - 1]))
    && (run.last < |lines| ==> IsBlankLine(lines[run.last]))
  }

  ghost predicate AreRuns(lines: seq<Lines.Line>, paragraphs: seq<Range>, runs: seq<Run>) {
    |runs| == |paragraphs| &&
    forall k :: 0 <= k < |runs| ==>
      IsMaximalRun(lines, runs[k]) && paragraphs[k] == ParagraphOf(lines, runs[k].first, runs[k].last)
  }

  /** The scan has reached line `index`, with the paragraphs and runs found so far. */
  ghost predicate IsScanned(content: Text, lines: seq<Lines.Line>, index: nat, paragraphs: seq<Range>, runs: seq<Run>) {
    && index <= |lines| && AreParagraphs(content, LineStart(content, lines, index), paragraphs)
    && AreRuns(lines, paragraphs, runs)
    && (0 < index < |lines| ==> IsBlankLine(lines[index - 1]) || IsBlankLine(lines[index]))
  }

  lemma ScanBlankLine(content: Text, lines: seq<Lines.Line>, index: nat, paragraphs: seq<Range>, runs: seq<Run>)
    requires Lines.Tiles(content, lines, |content|) && index < |lines| && IsBlankLine(lines[index])
    requires IsScanned(content, lines, index, paragraphs, runs)
    ensures IsScanned(content, lines, index + 1, paragraphs, runs)
  {
    SkipBlankLine(content, lines, index, paragraphs);
  }

  lemma ScanRun(content: Text, lines: seq<Lines.Line>, run: Run, paragraphs: seq<Range>, runs: seq<Run>)
    requires Lines.Tiles(content, lines, |content|) && run.first < run.last <= |lines|
    requires IsScanned(content, lines, run.first, paragraphs, runs)
    requires forall k :: run.first <= k < run.last ==> !IsBlankLine(lines[k])
    requires run.last < |lines| ==> IsBlankLine(lines[run.last])
    ensures IsParagraph(content, ParagraphOf(lines, run.first, run.last))
    ensures IsScanned(content, lines, run.last, paragraphs + [ParagraphOf(lines, run.first, run.last)], runs + [run])
  {
    AddParagraph(content, lines, run.first, run.last, paragraphs);
    NextRun(lines, paragraphs, runs, run);
  }

  /** Each paragraph is a maximal run of lines that are not blank; together they hold all text. */
  method ScanParagraphs(content: Text, lines: seq<Lines.Line>) returns (paragraphs: seq<Range>, ghost runs: seq<Run>)
    requires Lines.Tiles(content, lines, |content|)
    ensures AreParagraphs(content, |content|, paragraphs)
    ensures AreRuns(lines, paragraphs, runs)
  {
    paragraphs, runs := [], [];
    var index := 0;
    while index < |lines|
      invariant IsScanned(content, lines, index, paragraphs, runs)
      decreases |lines| - index
    {
      if IsBlankLine(lines[index]) {
        ScanBlankLine(content, lines, index, paragraphs, runs);
        index := index + 1;
        continue;
      }
      var start := index;
      index := EndOfRun(lines, start);
      var paragraph := ParagraphOf(lines, start, index);
      ScanRun(content, lines, Run(start, index), paragraphs, runs);
      Evidence.BlankSlice(content, paragraph.start, paragraph.end);
      if IsBlank(Slice(content, paragraph.start, paragraph.end)) { continue; }
      paragraphs, runs := paragraphs + [paragraph], runs + [Run(start, index)];
    }
  }

  /** The first blank line after a line that is not blank, or the end. */
  method EndOfRun(lines: seq<Lines.Line>, start: nat) returns (end: nat)
    requires start < |lines| && !IsBlankLine(lines[start])
    ensures start < end <= |lines| && forall k :: start <= k < end ==> !IsBlankLine(lines[k])
    ensures end < |lines| ==> IsBlankLine(lines[end])
  {
    end := start;
    while end < |lines| && !IsBlankLine(lines[end])
      invariant start <= end <= |lines| && forall k :: start <= k < end ==> !IsBlankLine(lines[k])
    {
      end := end + 1;
    }
  }

  lemma NextRun(lines: seq<Lines.Line>, paragraphs: seq<Range>, runs: seq<Run>, run: Run)
    requires AreRuns(lines, paragraphs, runs) && IsMaximalRun(lines, run)
    ensures AreRuns(lines, paragraphs + [ParagraphOf(lines, run.first, run.last)], runs + [run])
  {
  }

  /** One code point that no whole-code-point prefix of the text up to `end` could replace. */
  ghost predicate IsLonePoint(content: Text, limits: Limits, count: Counter, r: Range) {
    exists end: nat :: IsUnavoidable(content, end, limits, count, r)
  }

  /** Paragraphs are divisible and hold text, so a group over the limit is one unavoidable code point. */
  lemma OversizedText(content: Text, ranges: seq<AtomicRange>, limits: Limits, count: Counter, g: Group)
    requires forall r :: r in ranges ==> !r.atomic && IsParagraph(content, r.range)
    requires g.tokens == count(Slice(content, g.range.start, g.range.end)) && g.tokens > limits.maxTokens
    requires (exists r :: r in ranges && r.atomic && r.range == g.range) || IsSmall(content, ranges, limits, count, g.range)
    ensures IsLonePoint(content, limits, count, g.range)
  {
    var r :| r in ranges && !r.atomic && IsExcused(content, r.range, limits, count, g.range);
    assert IsUnavoidable(content, r.range.end, limits, count, g.range);
  }

  /** A plain-text source from text to groups: every code unit that is not whitespace is in a group, each
  group carries its exact token count, and a group over the limit is one unavoidable code point. */
  method ChunkText(content: Text, limits: Limits, count: Counter) returns (groups: seq<Group>)
    ensures InOrder(GroupRangesOf(groups)) && KeepsPairs(content, GroupRangesOf(groups))
    ensures forall i: nat :: i < |content| && !SpaceAt(content, i) ==> Covered(GroupRangesOf(groups), i)
    ensures forall g :: g in groups ==> g.tokens == count(Slice(content, g.range.start, g.range.end))
    ensures forall g :: g in groups && g.tokens > limits.maxTokens ==> IsLonePoint(content, limits, count, g.range)
  {
    if |content| == 0 { return []; }
    var lines := Lines.ScanLines(content);
    ghost var runs;
    var paragraphs;
    paragraphs, runs := ScanParagraphs(content, lines);
    var ranges := seq(|paragraphs|, k requires 0 <= k < |paragraphs| => AtomicRange(paragraphs[k], false));
    assert RangesOf(ranges) == paragraphs;
    groups := SplitAndGroup(content, ranges, limits, count);
    forall g | g in groups && g.tokens > limits.maxTokens ensures IsLonePoint(content, limits, count, g.range) {
      OversizedText(content, ranges, limits, count, g);
    }
  }

  /** For a plain-text source no evidence span is ever reported as incompletely prepared. */
  method TextEvidenceIsPrepared(content: Text, limits: Limits, count: Counter, start: nat, end: nat) returns (complete: bool)
    requires start <= end <= |content|
    ensures complete
  {
    var groups := ChunkText(content, limits, count);
    complete := Evidence.Sweep(content, start, end, GroupRangesOf(groups));
  }
}

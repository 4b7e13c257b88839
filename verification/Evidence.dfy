/** Mapping an annotated source span to the prepared blocks that must cover it. */
module Evidence {
  import opened Utf16
  import opened Splitting
  import Sorting

  predicate StartAtMost(a: Range, b: Range) { a.start <= b.start }

  /** Every code unit of `[start, end)` that is not whitespace lies inside some span. */
  ghost predicate IsCovered(content: Text, start: nat, end: nat, spans: seq<Range>) {
    forall i: nat :: start <= i < end && !SpaceAt(content, i) ==> Covered(spans, i)
  }

  lemma BlankSlice(content: Text, a: nat, b: nat)
    requires b <= |content|
    ensures IsBlank(Slice(content, a, b)) <==> BlankBetween(content, a, b)
  {
    if a < b {
      var s := Slice(content, a, b);
      assert forall i :: 0 <= i < |s| ==> s[i] == content[a + i];
      if IsBlank(s) {
        forall i | a <= i < b ensures SpaceAt(content, i) { assert s[i - a] == content[i]; }
      }
      if BlankBetween(content, a, b) {
        forall i | 0 <= i < |s| ensures IsWhitespace(s[i]) { assert SpaceAt(content, a + i); }
      }
    }
  }

  /** Some unit of `[start, end)` is text outside all `spans`. */
  ghost predicate Misses(content: Text, start: nat, end: nat, spans: seq<Range>, i: nat) {
    start <= i < end && !SpaceAt(content, i) && !Covered(spans, i)
  }

  /** The first `k` spans of a sorted list have been swept up to `cursor`. */
  ghost predicate IsSwept(content: Text, start: nat, end: nat, spans: seq<Range>, k: nat, cursor: nat, covered: bool) {
    && k <= |spans| && start <= cursor <= end
    && (forall j :: 0 <= j < k ==> spans[j].end <= cursor || end <= cursor)
    && (covered ==> forall i: nat :: start <= i < cursor && !SpaceAt(content, i) ==> Covered(spans, i))
    && (!covered ==> exists i :: Misses(content, start, end, spans, i))
  }

  lemma GapIsMissed(content: Text, start: nat, end: nat, spans: seq<Range>, k: nat, cursor: nat, i: nat)
    requires Sorting.SortedBy(StartAtMost, spans)
    requires k < |spans| && start <= cursor <= i < end && i < spans[k].start && !SpaceAt(content, i)
    requires forall j :: 0 <= j < k ==> spans[j].end <= cursor || end <= cursor
    ensures Misses(content, start, end, spans, i)
  {
    forall j | 0 <= j < |spans| ensures !Holds(spans[j], i) {
      if j > k { assert StartAtMost(spans[k], spans[j]); }
    }
  }

  lemma SweepStep(content: Text, start: nat, end: nat, spans: seq<Range>, k: nat, cursor: nat, covered: bool, gapBlank: bool)
    requires end <= |content| && Sorting.SortedBy(StartAtMost, spans)
    requires k < |spans| && IsSwept(content, start, end, spans, k, cursor, covered)
    requires gapBlank <==> BlankBetween(content, cursor, if spans[k].start < end then spans[k].start else end)
    ensures var reach := if spans[k].end < end then spans[k].end else end;
      IsSwept(content, start, end, spans, k + 1, if reach > cursor then reach else cursor, covered && gapBlank)
  {
    var span := spans[k];
    var gapEnd := if span.start < end then span.start else end;
    var reach := if span.end < end then span.end else end;
    var next := if reach > cursor then reach else cursor;
    if !gapBlank {
      var i :| cursor <= i < gapEnd && !SpaceAt(content, i);
      GapIsMissed(content, start, end, spans, k, cursor, i);
    } else if covered {
      forall i: nat | start <= i < next && !SpaceAt(content, i) ensures Covered(spans, i) {
        if i >= cursor { assert Holds(span, i); }
      }
    }
  }

  lemma SweepEnd(content: Text, start: nat, end: nat, spans: seq<Range>, cursor: nat, covered: bool, restBlank: bool)
    requires end <= |content| && IsSwept(content, start, end, spans, |spans|, cursor, covered)
    requires restBlank <==> BlankBetween(content, cursor, end)
    ensures covered && restBlank <==> IsCovered(content, start, end, spans)
  {
    if !restBlank {
      var i :| cursor <= i < end && !SpaceAt(content, i);
      assert forall j :: 0 <= j < |spans| ==> !Holds(spans[j], i);
    }
  }

  /** The sweep over the spans in order of their start, with one cursor.  It is exact for any spans,
  in any order, overlapping or nested. */
  method Sweep(content: Text, start: nat, end: nat, spans: seq<Range>) returns (covered: bool)
    requires start <= end <= |content|
    ensures covered <==> IsCovered(content, start, end, spans)
  {
    var sorted := Sorting.Sort(StartAtMost, spans);
    SameCoverage(content, start, end, spans);
    var cursor: nat := start;
    covered := true;
    for k := 0 to |sorted|
      invariant IsSwept(content, start, end, sorted, k, cursor, covered)
    {
      var span := sorted[k];
      var gapEnd := if span.start < end then span.start else end;
      BlankSlice(content, cursor, gapEnd);
      SweepStep(content, start, end, sorted, k, cursor, covered, IsBlank(Slice(content, cursor, gapEnd)));
      if span.start > cursor && !IsBlank(Slice(content, cursor, gapEnd)) { covered := false; }
      var reach := if span.end < end then span.end else end;
      if reach > cursor { cursor := reach; }
    }
    BlankSlice(content, cursor, end);
    SweepEnd(content, start, end, sorted, cursor, covered, IsBlank(Slice(content, cursor, end)));
    if !IsBlank(Slice(content, cursor, end)) { covered := false; }
  }

  lemma SameCoverage(content: Text, start: nat, end: nat, spans: seq<Range>)
    ensures Sorting.SortedBy(StartAtMost, Sorting.Sort(StartAtMost, spans))
    ensures IsCovered(content, start, end, Sorting.Sort(StartAtMost, spans)) <==> IsCovered(content, start, end, spans)
  {
    var sorted := Sorting.Sort(StartAtMost, spans);
    Sorting.SortPermutes(StartAtMost, spans);
    Sorting.SortSorts(StartAtMost, spans);
    Sorting.SameElements(sorted, spans);
    forall i ensures Covered(sorted, i) <==> Covered(spans, i) {
      if Covered(sorted, i) {
        var k :| 0 <= k < |sorted| && Holds(sorted[k], i);
        assert sorted[k] in spans;
      }
      if Covered(spans, i) {
        var k :| 0 <= k < |spans| && Holds(spans[k], i);
        assert spans[k] in sorted;
      }
    }
  }

  // ---------- one annotated span ----------

  /** Where in its source a prepared block comes from. */
  datatype Place = TextRange(range: Range) | Message(messageId: Text) | Elsewhere

  datatype Block = Block(id: Text, document: Text, place: Place)

  predicate Overlaps(b: Block, document: Text, start: nat, end: nat) {
    b.document == document && b.place.TextRange? && b.place.range.start < end && b.place.range.end > start
  }

  function Overlapping(blocks: seq<Block>, document: Text, start: nat, end: nat): (r: seq<Block>)
    ensures forall b :: b in r ==> Overlaps(b, document, start, end)
  {
    if blocks == [] then []
    else
      var n := |blocks| - 1;
      Overlapping(blocks[..n], document, start, end)
      + (if Overlaps(blocks[n], document, start, end) then [blocks[n]] else [])
  }

  lemma {:induction false} OverlappingBlocks(blocks: seq<Block>, document: Text, start: nat, end: nat)
    ensures forall b :: b in Overlapping(blocks, document, start, end) <==> b in blocks && Overlaps(b, document, start, end)
  {
    if blocks != [] {
      var n := |blocks| - 1;
      OverlappingBlocks(blocks[..n], document, start, end);
      assert blocks == blocks[..n] + [blocks[n]];
    }
  }

  /** A block overlaps a span exactly when they share a code unit. */
  lemma OverlapsIffShares(b: Block, document: Text, start: nat, end: nat)
    requires start < end && (b.place.TextRange? ==> b.place.range.start < b.place.range.end)
    ensures Overlaps(b, document, start, end) <==>
      b.document == document && b.place.TextRange? && exists i :: start <= i < end && Holds(b.place.range, i)
  {
    if b.document == document && b.place.TextRange? {
      var r := b.place.range;
      if Overlaps(b, document, start, end) { assert Holds(r, if r.start < start then start else r.start); }
    }
  }

  /** The overlapping blocks, in their order and as often as they occur. */
  lemma {:induction false} OverlappingAre(a: seq<Block>, b: seq<Block>, one: Block, document: Text, start: nat, end: nat)
    ensures Overlapping(a + b, document, start, end) == Overlapping(a, document, start, end) + Overlapping(b, document, start, end)
    ensures Overlapping([], document, start, end) == []
    ensures Overlapping([one], document, start, end) == if Overlaps(one, document, start, end) then [one] else []
  {
    assert [one][..0] == [];
    if b == [] {
      assert a + b == a;
    } else {
      var n := |b| - 1;
      OverlappingAre(a, b[..n], one, document, start, end);
      assert (a + b)[..|a + b| - 1] == a + b[..n] && (a + b)[|a + b| - 1] == b[n];
    }
  }

  function SpansOf(blocks: seq<Block>): seq<Range>
    requires forall b :: b in blocks ==> b.place.TextRange?
  {
    seq(|blocks|, i requires 0 <= i < |blocks| => (assert blocks[i] in blocks; blocks[i].place.range))
  }

  function IdsOf(blocks: seq<Block>): seq<Text> {
    seq(|blocks|, i requires 0 <= i < |blocks| => blocks[i].id)
  }

  /** `Mismatch` stands for the rejected annotation. */
  datatype Mapping = Mismatch | Mapped(blockIds: seq<Text>, complete: bool)

  /** Unit `i` lies in some block of the document. */
  ghost predicate InSomeBlock(blocks: seq<Block>, document: Text, i: int) {
    exists b :: b in blocks && b.document == document && b.place.TextRange? && Holds(b.place.range, i)
  }

  method MapTextEvidence(content: Text, document: Text, start: nat, end: nat, quote: Text, blocks: seq<Block>)
    returns (mapping: Mapping)
    ensures mapping.Mismatch? <==> end <= start || end > |content| || Slice(content, start, end) != quote
    ensures mapping.Mapped? ==>
      mapping.blockIds == IdsOf(Overlapping(blocks, document, start, end)) &&
      (mapping.complete <==> forall i: nat :: start <= i < end && !SpaceAt(content, i) ==> InSomeBlock(blocks, document, i))
  {
    if end <= start || end > |content| || Slice(content, start, end) != quote { return Mismatch; }
    var overlapping := Overlapping(blocks, document, start, end);
    OverlappingBlocks(blocks, document, start, end);
    var covered := Sweep(content, start, end, SpansOf(overlapping));
    forall i: nat | start <= i < end ensures Covered(SpansOf(overlapping), i) <==> InSomeBlock(blocks, document, i) {
      OverlappingCovers(blocks, document, start, end, i);
    }
    return Mapped(IdsOf(overlapping), covered);
  }

  /** Leaving out blocks that do not overlap the span loses nothing inside it. */
  lemma OverlappingCovers(blocks: seq<Block>, document: Text, start: nat, end: nat, i: nat)
    requires start <= i < end
    requires forall b :: b in Overlapping(blocks, document, start, end) <==> b in blocks && Overlaps(b, document, start, end)
    ensures Covered(SpansOf(Overlapping(blocks, document, start, end)), i) <==> InSomeBlock(blocks, document, i)
  {
    var overlapping := Overlapping(blocks, document, start, end);
    var spans := SpansOf(overlapping);
    if Covered(spans, i) {
      var k :| 0 <= k < |spans| && Holds(spans[k], i);
      assert overlapping[k] in overlapping;
    }
    if InSomeBlock(blocks, document, i) {
      var b :| b in blocks && b.document == document && b.place.TextRange? && Holds(b.place.range, i);
      assert b in overlapping;
      var k :| 0 <= k < |overlapping| && overlapping[k] == b;
      assert Holds(spans[k], i);
    }
  }
}

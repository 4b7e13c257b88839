/** Physical source lines and the line number of an offset. */
module Lines {
  import opened Utf16

  const NEWLINE: CodeUnit := 10
  const CARRIAGE_RETURN: CodeUnit := 13

  lemma LineUnits()
    ensures NEWLINE == '\n' as int && CARRIAGE_RETURN == '\r' as int
  {
  }

  /** `contentEnd` leaves out the newline and one carriage return before it. */
  datatype Line = Line(index: nat, start: nat, contentEnd: nat, fullEnd: nat, text: Text)

  // ---------- what a scan has to produce ----------

  /** Where the text of a line ends, given that the line is `content[start..fullEnd]`. */
  function TextEnd(content: Text, start: nat, fullEnd: nat): nat
    requires start < fullEnd <= |content|
  {
    var beforeNewline := if content[fullEnd - 1] == NEWLINE then fullEnd - 1 else fullEnd;
    if beforeNewline > start && content[beforeNewline - 1] == CARRIAGE_RETURN then beforeNewline - 1 else beforeNewline
  }

  ghost predicate IsLine(content: Text, line: Line) {
    && line.start < line.fullEnd <= |content|
    && line.contentEnd == TextEnd(content, line.start, line.fullEnd)
    && line.text == content[line.start..line.contentEnd]
    && (forall i :: line.start <= i < line.fullEnd - 1 ==> content[i] != NEWLINE)
    && (line.fullEnd < |content| ==> content[line.fullEnd - 1] == NEWLINE)
  }

  /** Consecutive lines from the start of `content` up to `end`. */
  ghost predicate Tiles(content: Text, lines: seq<Line>, end: nat) {
    && (forall i :: 0 <= i < |lines| ==> IsLine(content, lines[i]) && lines[i].index == i)
    && (forall i :: 0 <= i < |lines| - 1 ==> lines[i].fullEnd == lines[i + 1].start)
    && (if lines == [] then end == 0 else lines[0].start == 0 && lines[|lines| - 1].fullEnd == end)
  }

  /** A line is its text and what ends it: a newline, one carriage return, both, or nothing; only the last line may go
  without a newline, and no text keeps a newline or the carriage return before it. */
  lemma LineEnds(content: Text, line: Line)
    requires IsLine(content, line)
    ensures var end := content[line.contentEnd..line.fullEnd];
      && content[line.start..line.fullEnd] == line.text + end
      && (end == [] || end == ['\n' as int] || end == ['\r' as int] || end == ['\r' as int, '\n' as int])
      && ('\n' as int !in end ==> line.fullEnd == |content|)
      && (line.text != [] ==> line.text[|line.text| - 1] != '\n' as int)
      && (line.text != [] && line.text[|line.text| - 1] == '\r' as int ==> '\r' as int in end)
  {
    assert content[line.start..line.fullEnd] == line.text + content[line.contentEnd..line.fullEnd];
  }

  function IndexOf(content: Text, unit: CodeUnit, from: nat): (r: int)
    requires from <= |content|
    ensures r == -1 || from <= r < |content|
    ensures r == -1 ==> forall i :: from <= i < |content| ==> content[i] != unit
    ensures r != -1 ==> content[r] == unit && forall i :: from <= i < r ==> content[i] != unit
    decreases |content| - from
  {
    if from == |content| then -1 else if content[from] == unit then from else IndexOf(content, unit, from + 1)
  }

  method ScanLines(content: Text) returns (lines: seq<Line>)
    ensures Tiles(content, lines, |content|)
  {
    lines := [];
    var cursor := 0;
    while cursor < |content|
      invariant cursor <= |content| && Tiles(content, lines, cursor)
      invariant 0 < cursor < |content| ==> content[cursor - 1] == NEWLINE
    {
      var newline := IndexOf(content, NEWLINE, cursor);
      var fullEnd := if newline == -1 then |content| else newline + 1;
      var contentEnd := if newline == -1 then |content| else newline;
      if contentEnd > cursor && content[contentEnd - 1] == CARRIAGE_RETURN {
        contentEnd := contentEnd - 1;
      }
      var line := Line(|lines|, cursor, contentEnd, fullEnd, content[cursor..contentEnd]);
      assert IsLine(content, line);
      TilesNext(content, lines, cursor, line);
      lines := lines + [line];
      cursor := fullEnd;
    }
  }

  lemma TilesNext(content: Text, lines: seq<Line>, end: nat, line: Line)
    requires Tiles(content, lines, end) && IsLine(content, line)
    requires line.start == end && line.index == |lines|
    ensures Tiles(content, lines + [line], line.fullEnd)
  {
  }

  // ---------- the lines put together are the source ----------

  function Joined(content: Text, lines: seq<Line>): Text
    requires forall i :: 0 <= i < |lines| ==> lines[i].start <= lines[i].fullEnd <= |content|
  {
    if lines == [] then []
    else
      var last := lines[|lines| - 1];
      Joined(content, lines[..|lines| - 1]) + content[last.start..last.fullEnd]
  }

  lemma {:induction false} LinesJoinToSource(content: Text, lines: seq<Line>, end: nat)
    requires Tiles(content, lines, end)
    ensures end <= |content| && Joined(content, lines) == content[..end]
  {
    if lines != [] {
      var before := lines[..|lines| - 1];
      var last := lines[|lines| - 1];
      TilesBefore(content, lines, end);
      LinesJoinToSource(content, before, last.start);
      assert last.fullEnd == end;
      SplitAt(content, last.start, end);
    }
  }

  lemma SplitAt(content: Text, a: nat, b: nat)
    requires a <= b <= |content|
    ensures content[..b] == content[..a] + content[a..b]
  {
  }

  lemma TilesBefore(content: Text, lines: seq<Line>, end: nat)
    requires Tiles(content, lines, end) && lines != []
    ensures Tiles(content, lines[..|lines| - 1], lines[|lines| - 1].start)
  {
    var n := |lines| - 1;
    assert n > 0 ==> lines[n - 1].fullEnd == lines[n].start;
  }

  /** The text of a line holds no newline. */
  lemma LineTextHasNoNewline(content: Text, line: Line)
    requires IsLine(content, line)
    ensures NEWLINE !in line.text
  {
    forall i | 0 <= i < |line.text| ensures line.text[i] != NEWLINE {
      assert line.text[i] == content[line.start + i];
    }
  }

  // ---------- line numbers ----------

  function NewlinesBefore(content: Text, offset: nat): nat
    requires offset <= |content|
  {
    if offset == 0 then 0
    else NewlinesBefore(content, offset - 1) + (if content[offset - 1] == NEWLINE then 1 else 0)
  }

  lemma {:induction false} NoNewlineBetween(content: Text, a: nat, b: nat)
    requires a <= b <= |content| && forall i :: a <= i < b ==> content[i] != NEWLINE
    ensures NewlinesBefore(content, b) == NewlinesBefore(content, a)
  {
    if a < b { NoNewlineBetween(content, a, b - 1); }
  }

  /** Every offset inside line `i` has exactly `i` newlines before it. */
  lemma {:induction false} NewlinesBeforeLine(content: Text, lines: seq<Line>, i: nat, offset: nat)
    requires Tiles(content, lines, |content|) && i < |lines|
    requires lines[i].start <= offset < lines[i].fullEnd
    ensures NewlinesBefore(content, offset) == i
    decreases i
  {
    NoNewlineBetween(content, lines[i].start, offset);
    if i > 0 {
      var last := lines[i - 1].fullEnd - 1;
      assert lines[i - 1].fullEnd == lines[i].start;
      NewlinesBeforeLine(content, lines, i - 1, last);
      assert content[last] == NEWLINE;
    }
  }

  lemma {:induction false} LinesIncrease(content: Text, lines: seq<Line>, end: nat, i: nat, j: nat)
    requires Tiles(content, lines, end) && i < j < |lines|
    ensures lines[i].fullEnd <= lines[j].start && lines[j].fullEnd <= end
    decreases |lines| - i
  {
    assert lines[i].fullEnd == lines[i + 1].start;
    if i + 1 < j { LinesIncrease(content, lines, end, i + 1, j); }
    else if j + 1 < |lines| { LinesIncrease(content, lines, end, j, j + 1); }
  }

  /** The one-based number of the line holding `offset`; offsets outside the source are clamped. */
  function LineNumber(content: Text, lineCount: nat, offset: int): int {
    if offset < 0 || lineCount == 0 then 1
    else if offset >= |content| then lineCount
    else 1 + NewlinesBefore(content, offset)
  }

  /** Inside the text the line of an offset is the number of newlines up to it; before it the first line, after it the
  last, and 1 where there are no lines. */
  lemma LineNumberIs(content: Text, lineCount: nat, offset: int)
    ensures lineCount == 0 || offset < 0 ==> LineNumber(content, lineCount, offset) == 1
    ensures lineCount > 0 && offset >= |content| && offset >= 0 ==> LineNumber(content, lineCount, offset) == lineCount
    ensures lineCount > 0 && 0 <= offset < |content| ==> LineNumber(content, lineCount, offset) == |NewlinesUpTo(content, offset)| + 1
  {
    if 0 <= offset < |content| { NewlinesAreCounted(content, offset); }
  }

  ghost function NewlinesUpTo(content: Text, offset: nat): set<nat> { set i: nat | i < offset && i < |content| && content[i] == '\n' as int }

  lemma {:induction false} NewlinesAreCounted(content: Text, offset: nat)
    requires offset <= |content|
    ensures NewlinesBefore(content, offset) == |NewlinesUpTo(content, offset)|
  {
    if offset > 0 {
      var n := offset - 1;
      NewlinesAreCounted(content, n);
      if content[n] == NEWLINE {
        assert NewlinesUpTo(content, offset) == NewlinesUpTo(content, n) + {n};
      } else {
        assert NewlinesUpTo(content, offset) == NewlinesUpTo(content, n);
      }
    } else {
      assert NewlinesUpTo(content, offset) == {};
    }
  }

  lemma LaterLines(content: Text, lines: seq<Line>, middle: nat, offset: int)
    requires Tiles(content, lines, |content|) && middle < |lines| && offset < lines[middle].start
    ensures forall i :: middle <= i < |lines| ==> offset < lines[i].start
  {
    forall i | middle < i < |lines| ensures offset < lines[i].start { LinesIncrease(content, lines, |content|, middle, i); }
  }

  lemma EarlierLines(content: Text, lines: seq<Line>, middle: nat, offset: int)
    requires Tiles(content, lines, |content|) && middle < |lines| && lines[middle].fullEnd <= offset
    ensures forall i :: 0 <= i <= middle ==> lines[i].fullEnd <= offset
  {
    forall i | 0 <= i < middle ensures lines[i].fullEnd <= offset { LinesIncrease(content, lines, |content|, i, middle); }
  }

  /** Binary search over scanned lines. */
  method LineNumberAtOffset(ghost content: Text, lines: seq<Line>, offset: int) returns (number: int)
    requires Tiles(content, lines, |content|)
    ensures number == LineNumber(content, |lines|, offset)
  {
    var low, high := 0, |lines| - 1;
    while low <= high
      invariant 0 <= low <= |lines| && -1 <= high < |lines| && low <= high + 1
      invariant forall i :: 0 <= i < low ==> lines[i].fullEnd <= offset
      invariant forall i :: high < i < |lines| ==> offset < lines[i].start
      decreases high - low
    {
      var middle := (low + high) / 2;
      var line := lines[middle];
      if offset < line.start {
        LaterLines(content, lines, middle, offset);
        high := middle - 1;
      } else if offset >= line.fullEnd {
        EarlierLines(content, lines, middle, offset);
        low := middle + 1;
      } else {
        NewlinesBeforeLine(content, lines, middle, offset);
        return line.index + 1;
      }
    }
    Outside(content, lines, offset, low);
    var last := |lines| - 1;
    var fallback := if high < last then high else last;
    fallback := if fallback < 0 then 0 else fallback;
    number := (if fallback < |lines| then lines[fallback].index else 0) + 1;
  }

  /** Tiled lines leave no gap: an offset in none of them lies before all or after all. */
  lemma Outside(content: Text, lines: seq<Line>, offset: int, low: nat)
    requires Tiles(content, lines, |content|) && low <= |lines|
    requires forall i :: 0 <= i < low ==> lines[i].fullEnd <= offset
    requires forall i :: low <= i < |lines| ==> offset < lines[i].start
    ensures lines != [] && low == 0 ==> offset < 0
    ensures lines != [] && low > 0 ==> low == |lines| && offset >= |content|
    ensures lines == [] ==> content == []
  {
    assert forall i :: 0 < i < |lines| ==> lines[i - 1].fullEnd == lines[i].start;
    assert low < |lines| ==> offset < lines[low].start;
    assert low > 0 ==> lines[low - 1].fullEnd <= offset;
  }
}

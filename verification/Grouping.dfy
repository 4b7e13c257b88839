/** Grouping adjacent ranges toward a token target. */
module Grouping {
  import opened Options
  import opened Utf16
  import opened Splitting

  /** An atomic range may not be divided, whatever it costs. */
  datatype AtomicRange = AtomicRange(range: Range, atomic: bool)

  datatype Group = Group(range: Range, tokens: nat)

  function Tokens(content: Text, start: nat, end: nat, count: Counter): nat {
    count(Slice(content, start, end))
  }

  /** An atomic range that is over the limit on its own. */
  predicate StandsAlone(content: Text, limits: Limits, count: Counter, r: AtomicRange) {
    r.atomic && Tokens(content, r.range.start, r.range.end, count) > limits.maxTokens
  }

  /** How far the group made of ranges `a ..= j` is from the target. */
  function Gap(content: Text, ranges: seq<AtomicRange>, limits: Limits, count: Counter, a: int, j: int): nat
    requires 0 <= a < |ranges| && 0 <= j < |ranges|
  {
    Abs(Tokens(content, ranges[a].range.start, ranges[j].range.end, count) - limits.targetTokens)
  }

  /** Range `j` may extend a group that runs from range `a` to range `j - 1`: the longer slice fits and
  is no farther from the target. */
  predicate Joins(content: Text, ranges: seq<AtomicRange>, limits: Limits, count: Counter, a: int, j: int)
    requires 0 <= a < j < |ranges|
  {
    && Tokens(content, ranges[a].range.start, ranges[j].range.end, count) <= limits.maxTokens
    && Gap(content, ranges, limits, count, a, j) <= Gap(content, ranges, limits, count, a, j - 1)
  }

  /** Ranges `a .. b` form one growing group so far. */
  ghost predicate IsRun(content: Text, ranges: seq<AtomicRange>, limits: Limits, count: Counter, a: int, b: int) {
    && 0 <= a < b <= |ranges|
    && (StandsAlone(content, limits, count, ranges[a]) ==> b == a + 1)
    && forall j {:trigger Joins(content, ranges, limits, count, a, j)} {:trigger StandsAlone(content, limits, count, ranges[j])} ::
         a < j < b ==> !StandsAlone(content, limits, count, ranges[j]) && Joins(content, ranges, limits, count, a, j)
  }

  /** The group made of ranges `a .. b`, which could not have been extended. */
  ghost predicate IsGroup(content: Text, ranges: seq<AtomicRange>, limits: Limits, count: Counter, a: int, b: int, g: Group) {
    && IsRun(content, ranges, limits, count, a, b)
    && g.range == Range(ranges[a].range.start, ranges[b - 1].range.end)
    && g.tokens == Tokens(content, g.range.start, g.range.end, count)
    && (b < |ranges| ==>
          || StandsAlone(content, limits, count, ranges[a]) || StandsAlone(content, limits, count, ranges[b])
          || !Joins(content, ranges, limits, count, a, b))
  }

  /** Group `k` is made of ranges `cuts[k] .. cuts[k + 1]`; together the groups use the first `n` ranges. */
  ghost predicate IsGrouping(content: Text, ranges: seq<AtomicRange>, limits: Limits, count: Counter,
      groups: seq<Group>, cuts: seq<nat>, n: nat)
  {
    && |cuts| == |groups| + 1 && cuts[0] == 0 && cuts[|groups|] == n
    && forall k {:trigger groups[k]} :: 0 <= k < |groups| ==> IsGroup(content, ranges, limits, count, cuts[k], cuts[k + 1], groups[k])
  }

  lemma GroupNext(content: Text, ranges: seq<AtomicRange>, limits: Limits, count: Counter,
      groups: seq<Group>, cuts: seq<nat>, n: nat, g: Group, m: nat)
    requires IsGrouping(content, ranges, limits, count, groups, cuts, n)
    requires IsGroup(content, ranges, limits, count, n, m, g)
    ensures IsGrouping(content, ranges, limits, count, groups + [g], cuts + [m], m)
  {
    var gs, cs := groups + [g], cuts + [m];
    forall k | 0 <= k < |gs| ensures IsGroup(content, ranges, limits, count, cs[k], cs[k + 1], gs[k]) {
      if k < |groups| { assert IsGroup(content, ranges, limits, count, cuts[k], cuts[k + 1], groups[k]); }
    }
  }

  /** The growing group `group` holds ranges `a .. b`. */
  ghost predicate IsOpen(content: Text, ranges: seq<AtomicRange>, limits: Limits, count: Counter, a: int, b: int, group: Group) {
    && IsRun(content, ranges, limits, count, a, b) && !StandsAlone(content, limits, count, ranges[a])
    && group.range == Range(ranges[a].range.start, ranges[b - 1].range.end)
    && group.tokens == Tokens(content, group.range.start, group.range.end, count)
  }

  lemma Extend(content: Text, ranges: seq<AtomicRange>, limits: Limits, count: Counter, a: int, b: int, group: Group)
    requires IsOpen(content, ranges, limits, count, a, b, group) && b < |ranges|
    requires !StandsAlone(content, limits, count, ranges[b]) && Joins(content, ranges, limits, count, a, b)
    ensures IsOpen(content, ranges, limits, count, a, b + 1,
      Group(Range(group.range.start, ranges[b].range.end), Tokens(content, group.range.start, ranges[b].range.end, count)))
  {
  }

  /** The closed groups use the ranges before `open`; the open group, if any, the ranges up to `i`. */
  ghost predicate IsProgress(content: Text, ranges: seq<AtomicRange>, limits: Limits, count: Counter,
      groups: seq<Group>, cuts: seq<nat>, current: Option<Group>, open: nat, i: nat)
  {
    && i <= |ranges| && IsGrouping(content, ranges, limits, count, groups, cuts, open)
    && match current
       case None => open == i
       case Some(g) => IsOpen(content, ranges, limits, count, open, i, g)
  }

  /** `flush`: closes the open group, if there is one. */
  method Flush(ghost content: Text, ghost ranges: seq<AtomicRange>, ghost limits: Limits, ghost count: Counter,
      groups: seq<Group>, ghost cuts: seq<nat>, current: Option<Group>, ghost open: nat, ghost i: nat)
    returns (flushed: seq<Group>, ghost newCuts: seq<nat>)
    requires IsProgress(content, ranges, limits, count, groups, cuts, current, open, i)
    requires current.Some? && i < |ranges| ==>
      StandsAlone(content, limits, count, ranges[i]) || !Joins(content, ranges, limits, count, open, i)
    ensures flushed == if current.None? then groups else groups + [current.value]
    ensures IsProgress(content, ranges, limits, count, flushed, newCuts, None, i, i)
  {
    if current.None? { return groups, cuts; }
    GroupNext(content, ranges, limits, count, groups, cuts, open, current.value, i);
    return groups + [current.value], cuts + [i];
  }

  /** A range that begins a new group. */
  lemma StartGroup(content: Text, ranges: seq<AtomicRange>, limits: Limits, count: Counter, groups: seq<Group>, cuts: seq<nat>, i: nat)
    requires i < |ranges| && IsProgress(content, ranges, limits, count, groups, cuts, None, i, i)
    requires !StandsAlone(content, limits, count, ranges[i])
    ensures IsProgress(content, ranges, limits, count, groups, cuts,
      Some(Group(ranges[i].range, Tokens(content, ranges[i].range.start, ranges[i].range.end, count))), i, i + 1)
  {
  }

  /** An atomic range over the limit is a group by itself. */
  lemma AddAlone(content: Text, ranges: seq<AtomicRange>, limits: Limits, count: Counter, groups: seq<Group>, cuts: seq<nat>, i: nat)
    requires i < |ranges| && IsProgress(content, ranges, limits, count, groups, cuts, None, i, i)
    requires StandsAlone(content, limits, count, ranges[i])
    ensures var g := Group(ranges[i].range, Tokens(content, ranges[i].range.start, ranges[i].range.end, count));
      IsProgress(content, ranges, limits, count, groups + [g], cuts + [i + 1], None, i + 1, i + 1)
  {
    var g := Group(ranges[i].range, Tokens(content, ranges[i].range.start, ranges[i].range.end, count));
    assert IsGroup(content, ranges, limits, count, i, i + 1, g);
    GroupNext(content, ranges, limits, count, groups, cuts, i, g, i + 1);
  }

  /** How the code decides whether a range joins the open group. */
  lemma JoinsIff(content: Text, ranges: seq<AtomicRange>, limits: Limits, count: Counter, open: nat, i: nat, g: Group)
    requires i < |ranges| && IsOpen(content, ranges, limits, count, open, i, g)
    ensures Joins(content, ranges, limits, count, open, i) <==>
      var combined := Tokens(content, g.range.start, ranges[i].range.end, count);
      combined <= limits.maxTokens && Abs(combined - limits.targetTokens) <= Abs(g.tokens - limits.targetTokens)
  {
  }

  /** Adds one range: alone, as a new group, to the open group, or after it. */
  method AddRange(content: Text, ranges: seq<AtomicRange>, limits: Limits, count: Counter, groups: seq<Group>, ghost cuts: seq<nat>,
      current: Option<Group>, ghost open: nat, i: nat, ghost whole: bool)
    returns (groups': seq<Group>, ghost cuts': seq<nat>, current': Option<Group>, ghost open': nat)
    requires i < |ranges| && IsProgress(content, ranges, limits, count, groups, cuts, current, open, i)
    requires whole ==> WellFormed(content) && KeepsPairs(content, RangesOf(ranges))
    ensures IsProgress(content, ranges, limits, count, groups', cuts', current', open', i + 1)
  {
    var r := ranges[i];
    if whole { RunIsWhole(content, ranges, i, i); }
    var standalone := Measure(content, r.range.start, r.range.end, count, whole);
    if r.atomic && standalone > limits.maxTokens {
      groups', cuts' := Flush(content, ranges, limits, count, groups, cuts, current, open, i);
      AddAlone(content, ranges, limits, count, groups', cuts', i);
      return groups' + [Group(r.range, standalone)], cuts' + [i + 1], None, i + 1;
    }
    if current.None? {
      StartGroup(content, ranges, limits, count, groups, cuts, i);
      return groups, cuts, Some(Group(r.range, standalone)), open;
    }
    groups', cuts', current', open' := JoinOrStart(content, ranges, limits, count, groups, cuts, current.value, open, i, standalone, whole);
  }

  /** A range that does not stand alone joins the open group or begins the next. */
  method JoinOrStart(content: Text, ranges: seq<AtomicRange>, limits: Limits, count: Counter, groups: seq<Group>, ghost cuts: seq<nat>,
      g: Group, ghost open: nat, i: nat, standalone: nat, ghost whole: bool)
    returns (groups': seq<Group>, ghost cuts': seq<nat>, current': Option<Group>, ghost open': nat)
    requires i < |ranges| && IsProgress(content, ranges, limits, count, groups, cuts, Some(g), open, i)
    requires !StandsAlone(content, limits, count, ranges[i])
    requires standalone == Tokens(content, ranges[i].range.start, ranges[i].range.end, count)
    requires whole ==> WellFormed(content) && KeepsPairs(content, RangesOf(ranges))
    ensures IsProgress(content, ranges, limits, count, groups', cuts', current', open', i + 1)
  {
    var r := ranges[i];
    if whole { RunIsWhole(content, ranges, open, i); }
    var combined := Measure(content, g.range.start, r.range.end, count, whole);
    JoinsIff(content, ranges, limits, count, open, i, g);
    var closerToTarget := Abs(combined - limits.targetTokens) <= Abs(g.tokens - limits.targetTokens);
    if combined <= limits.maxTokens && closerToTarget {
      Extend(content, ranges, limits, count, open, i, g);
      return groups, cuts, Some(Group(Range(g.range.start, r.range.end), combined)), open;
    }
    groups', cuts' := Flush(content, ranges, limits, count, groups, cuts, Some(g), open, i);
    StartGroup(content, ranges, limits, count, groups', cuts', i);
    return groups', cuts', Some(Group(r.range, standalone)), i;
  }

  method GroupRanges(content: Text, ranges: seq<AtomicRange>, limits: Limits, count: Counter)
    returns (groups: seq<Group>, ghost cuts: seq<nat>)
    ensures IsGrouping(content, ranges, limits, count, groups, cuts, |ranges|)
    ensures forall k :: 0 <= k < |groups| ==>
      groups[k].tokens == count(Slice(content, groups[k].range.start, groups[k].range.end))
    ensures InOrder(RangesOf(ranges)) ==> InOrder(GroupRangesOf(groups))
  {
    groups, cuts := [], [0];
    var current: Option<Group> := None;
    ghost var open := 0;
    ghost var whole := WellFormed(content) && KeepsPairs(content, RangesOf(ranges));
    for i := 0 to |ranges|
      invariant IsProgress(content, ranges, limits, count, groups, cuts, current, open, i)
    {
      groups, cuts, current, open := AddRange(content, ranges, limits, count, groups, cuts, current, open, i, whole);
    }
    groups, cuts := Flush(content, ranges, limits, count, groups, cuts, current, open, |ranges|);
    GroupingFacts(content, ranges, limits, count, groups, cuts);
  }

  lemma RunIsWhole(content: Text, ranges: seq<AtomicRange>, a: nat, b: nat)
    requires WellFormed(content) && KeepsPairs(content, RangesOf(ranges)) && a < |ranges| && b < |ranges|
    ensures WellFormed(Slice(content, ranges[a].range.start, ranges[b].range.end))
  {
    var rs := RangesOf(ranges);
    assert rs[a] == ranges[a].range && rs[b] == ranges[b].range;
    WholeSlice(content, rs[a].start, rs[b].end);
  }

  lemma GroupingFacts(content: Text, ranges: seq<AtomicRange>, limits: Limits, count: Counter, groups: seq<Group>, cuts: seq<nat>)
    requires IsGrouping(content, ranges, limits, count, groups, cuts, |ranges|)
    ensures forall k :: 0 <= k < |groups| ==>
      groups[k].tokens == count(Slice(content, groups[k].range.start, groups[k].range.end))
    ensures InOrder(RangesOf(ranges)) ==> InOrder(GroupRangesOf(groups))
  {
    forall k | 0 <= k < |groups|
      ensures groups[k].tokens == count(Slice(content, groups[k].range.start, groups[k].range.end))
    {
      assert IsGroup(content, ranges, limits, count, cuts[k], cuts[k + 1], groups[k]);
    }
    GroupsSpanRuns(content, ranges, limits, count, groups, cuts);
    if InOrder(RangesOf(ranges)) { GroupsAreOrdered(RangesOf(ranges), GroupRangesOf(groups), cuts); }
  }

  // ---------- what grouping keeps ----------

  function RangesOf(ranges: seq<AtomicRange>): seq<Range> {
    seq(|ranges|, i requires 0 <= i < |ranges| => ranges[i].range)
  }

  function GroupRangesOf(groups: seq<Group>): seq<Range> {
    seq(|groups|, i requires 0 <= i < |groups| => groups[i].range)
  }

  /** Group `k` spans ranges `cuts[k] .. cuts[k + 1]`. */
  predicate SpansRun(rs: seq<Range>, gs: seq<Range>, cuts: seq<nat>, k: nat)
    requires k < |gs| && |cuts| == |gs| + 1
  {
    cuts[k] < cuts[k + 1] <= |rs| && gs[k] == Range(rs[cuts[k]].start, rs[cuts[k + 1] - 1].end)
  }

  /** The groups use up all ranges in consecutive runs. */
  ghost predicate Spans(rs: seq<Range>, gs: seq<Range>, cuts: seq<nat>) {
    && |cuts| == |gs| + 1 && cuts[0] == 0 && cuts[|gs|] == |rs|
    && forall k :: 0 <= k < |gs| ==> SpansRun(rs, gs, cuts, k)
  }

  /** The groups partition the ranges into consecutive runs and span them exactly. */
  lemma GroupsSpanRuns(content: Text, ranges: seq<AtomicRange>, limits: Limits, count: Counter, groups: seq<Group>, cuts: seq<nat>)
    requires IsGrouping(content, ranges, limits, count, groups, cuts, |ranges|)
    ensures Spans(RangesOf(ranges), GroupRangesOf(groups), cuts)
  {
    var rs, gs := RangesOf(ranges), GroupRangesOf(groups);
    forall k | 0 <= k < |gs| ensures SpansRun(rs, gs, cuts, k) {
      assert IsGroup(content, ranges, limits, count, cuts[k], cuts[k + 1], groups[k]);
    }
  }

  lemma {:induction false} CutsIncrease(rs: seq<Range>, gs: seq<Range>, cuts: seq<nat>, j: nat, k: nat)
    requires Spans(rs, gs, cuts) && j <= k <= |gs|
    ensures cuts[j] <= cuts[k] <= |rs|
    decreases |gs| - j
  {
    if j < k {
      assert SpansRun(rs, gs, cuts, j);
      CutsIncrease(rs, gs, cuts, j + 1, k);
    } else if k < |gs| {
      assert SpansRun(rs, gs, cuts, k);
    }
  }

  /** Every range is used by exactly one group. */
  lemma {:induction false} UsedBy(rs: seq<Range>, gs: seq<Range>, cuts: seq<nat>, n: nat, i: nat) returns (k: nat)
    requires Spans(rs, gs, cuts) && n <= |gs| && i < cuts[n]
    ensures k < n && cuts[k] <= i < cuts[k + 1]
    decreases n
  {
    if cuts[n - 1] <= i { k := n - 1; } else { k := UsedBy(rs, gs, cuts, n - 1, i); }
  }

  lemma GroupsApart(rs: seq<Range>, gs: seq<Range>, cuts: seq<nat>, j: nat, k: nat)
    requires Spans(rs, gs, cuts) && InOrder(rs) && j < k < |gs|
    ensures gs[j].end <= gs[k].start
  {
    assert SpansRun(rs, gs, cuts, j) && SpansRun(rs, gs, cuts, k);
    CutsIncrease(rs, gs, cuts, j + 1, k);
    var last, first := cuts[j + 1] - 1, cuts[k];
    assert rs[last].end <= rs[first].start;
  }

  lemma GroupHolds(rs: seq<Range>, gs: seq<Range>, cuts: seq<nat>, m: nat, i: int)
    requires Spans(rs, gs, cuts) && InOrder(rs) && m < |rs| && Holds(rs[m], i)
    ensures Covered(gs, i)
  {
    var k := UsedBy(rs, gs, cuts, |gs|, m);
    assert SpansRun(rs, gs, cuts, k);
    RangesIncrease(rs, cuts[k], m);
    RangesIncrease(rs, m, cuts[k + 1] - 1);
    assert Holds(gs[k], i);
  }

  /** Groups of ordered ranges are in order and apart, and hold every range whole. */
  lemma GroupsAreOrdered(rs: seq<Range>, gs: seq<Range>, cuts: seq<nat>)
    requires Spans(rs, gs, cuts) && InOrder(rs)
    ensures InOrder(gs)
    ensures forall i :: Covered(rs, i) ==> Covered(gs, i)
  {
    forall k | 0 <= k < |gs| ensures gs[k].start <= gs[k].end {
      assert SpansRun(rs, gs, cuts, k);
      RangesIncrease(rs, cuts[k], cuts[k + 1] - 1);
    }
    forall j, k | 0 <= j < k < |gs| ensures gs[j].end <= gs[k].start {
      GroupsApart(rs, gs, cuts, j, k);
    }
    forall i | Covered(rs, i) ensures Covered(gs, i) {
      var m :| 0 <= m < |rs| && Holds(rs[m], i);
      GroupHolds(rs, gs, cuts, m, i);
    }
  }

  lemma RangesIncrease(rs: seq<Range>, i: nat, j: nat)
    requires InOrder(rs) && i <= j < |rs|
    ensures rs[i].start <= rs[j].start && rs[i].end <= rs[j].end && rs[i].start <= rs[j].end
  {
    assert rs[i].start <= rs[i].end && rs[j].start <= rs[j].end;
  }

  /** A group over the limit holds one range only; an atomic range over the limit is a group by itself. */
  lemma OversizedGroups(content: Text, ranges: seq<AtomicRange>, limits: Limits, count: Counter, groups: seq<Group>, cuts: seq<nat>, k: nat)
    requires IsGrouping(content, ranges, limits, count, groups, cuts, |ranges|) && k < |groups|
    ensures groups[k].tokens > limits.maxTokens ==> cuts[k + 1] == cuts[k] + 1
    ensures forall i :: cuts[k] <= i < cuts[k + 1] && i < |ranges| && StandsAlone(content, limits, count, ranges[i]) ==>
      cuts[k] == i && cuts[k + 1] == i + 1 && groups[k].range == ranges[i].range
  {
    var a, b := cuts[k], cuts[k + 1];
    assert IsGroup(content, ranges, limits, count, a, b, groups[k]);
    assert b > a + 1 ==> Joins(content, ranges, limits, count, a, b - 1);
  }

  function SliceTokens(content: Text, start: nat, end: nat, count: Counter): nat { count(Slice(content, start, end)) }

  /** How far a token count is from the target. */
  function Off(tokens: nat, limits: Limits): nat {
    if tokens < limits.targetTokens then limits.targetTokens - tokens else tokens - limits.targetTokens
  }

  /** An atomic range whose own slice is over the limit. */
  predicate IsOversizedAtom(content: Text, limits: Limits, count: Counter, r: AtomicRange) {
    r.atomic && SliceTokens(content, r.range.start, r.range.end, count) > limits.maxTokens
  }

  /** Two groups stay apart for a reason: one of them begins with an oversized atomic range, or the first range of the
  second would bring the first over the limit or farther from the target. */
  lemma GroupsAreMaximal(content: Text, ranges: seq<AtomicRange>, limits: Limits, count: Counter, groups: seq<Group>, cuts: seq<nat>, k: nat)
    requires IsGrouping(content, ranges, limits, count, groups, cuts, |ranges|) && k + 1 < |groups|
    ensures cuts[k] < cuts[k + 1] < |ranges|
    ensures var first, next := ranges[cuts[k]], ranges[cuts[k + 1]];
      var longer := SliceTokens(content, first.range.start, next.range.end, count);
      || IsOversizedAtom(content, limits, count, first) || IsOversizedAtom(content, limits, count, next)
      || longer > limits.maxTokens || Off(longer, limits) > Off(groups[k].tokens, limits)
  {
    assert IsGroup(content, ranges, limits, count, cuts[k], cuts[k + 1], groups[k]);
    assert IsGroup(content, ranges, limits, count, cuts[k + 1], cuts[k + 2], groups[k + 1]);
  }

  /** A group of several ranges was joined one by one: no oversized atomic range is among them, and no step brought it
  over the limit or farther from the target. */
  lemma JoinedForAReason(content: Text, ranges: seq<AtomicRange>, limits: Limits, count: Counter, groups: seq<Group>, cuts: seq<nat>, k: nat, j: nat)
    requires IsGrouping(content, ranges, limits, count, groups, cuts, |ranges|) && k < |groups| && cuts[k] < j < cuts[k + 1]
    ensures cuts[k + 1] <= |ranges|
    ensures !IsOversizedAtom(content, limits, count, ranges[cuts[k]]) && !IsOversizedAtom(content, limits, count, ranges[j])
    ensures var before := SliceTokens(content, ranges[cuts[k]].range.start, ranges[j - 1].range.end, count);
      var longer := SliceTokens(content, ranges[cuts[k]].range.start, ranges[j].range.end, count);
      longer <= limits.maxTokens && Off(longer, limits) <= Off(before, limits)
  {
    assert IsGroup(content, ranges, limits, count, cuts[k], cuts[k + 1], groups[k]);
    assert Joins(content, ranges, limits, count, cuts[k], j);
  }

  /** Each merge leaves the group no farther from the target than it was. */
  lemma {:induction false} MergesApproachTarget(content: Text, ranges: seq<AtomicRange>, limits: Limits, count: Counter, a: int, i: int, j: int)
    requires 0 <= a <= i <= j < |ranges|
    requires IsRun(content, ranges, limits, count, a, j + 1)
    ensures Gap(content, ranges, limits, count, a, j) <= Gap(content, ranges, limits, count, a, i)
    decreases j - i
  {
    if i < j {
      assert Joins(content, ranges, limits, count, a, j);
      assert IsRun(content, ranges, limits, count, a, j);
      MergesApproachTarget(content, ranges, limits, count, a, i, j - 1);
    }
  }
}

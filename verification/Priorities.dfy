/** Which candidates the allocator prefers: the order of its decisions, and where a candidate it leaves out
stands among those it takes, in the candidates' own fields. */
module Priorities {
  import opened Options
  import opened Utf16
  import opened Sorting
  import opened Precedence
  import opened Selections
  import opened Choices
  import opened Minimums
  import opened Allocation

  // ---------- sorted lists ----------

  lemma SortedInOrder(le: (Candidate, Candidate) -> bool, first: (Candidate, Candidate) -> bool, cs: seq<Candidate>)
    requires TotalPreorder(le) && DistinctIds(cs)
    requires forall a, b :: a in cs && b in cs && a.id != b.id && le(a, b) ==> first(a, b)
    ensures SortedBy(first, Sort(le, cs)) && DistinctIds(Sort(le, cs)) && forall c :: c in Sort(le, cs) <==> c in cs
  {
    SortSorts(le, cs);
    SortPermutes(le, cs);
    RearrangedDistinct(cs, Sort(le, cs));
    var sorted := Sort(le, cs);
    forall i, j | 0 <= i < j < |sorted| ensures first(sorted[i], sorted[j]) {
      assert sorted[i] in cs && sorted[j] in cs;
    }
  }

  lemma ByIdentifier(cs: seq<Candidate>)
    requires DistinctIds(cs)
    ensures SortedBy(NamedFirst, Sort(IdAtMost, cs)) && DistinctIds(Sort(IdAtMost, cs)) && forall c :: c in Sort(IdAtMost, cs) <==> c in cs
  {
    OrdersArePreorders();
    SortedInOrder(IdAtMost, NamedFirst, cs);
  }

  lemma ByScore(cs: seq<Candidate>)
    requires DistinctIds(cs)
    ensures SortedBy(ScoresHigher, Sort(ScoreAtMost, cs)) && forall c :: c in Sort(ScoreAtMost, cs) <==> c in cs
  {
    OrdersArePreorders();
    SortedInOrder(ScoreAtMost, ScoresHigher, cs);
  }

  lemma ByCost(cs: seq<Candidate>)
    requires DistinctIds(cs)
    ensures SortedBy(CostsLess, Sort(MinimumAtMost, cs)) && forall c :: c in Sort(MinimumAtMost, cs) <==> c in cs
  {
    OrdersArePreorders();
    SortedInOrder(MinimumAtMost, CostsLess, cs);
  }

  // ---------- the minimums ----------

  ghost predicate InCategoryOrder(ks: seq<Constraint>) { forall i, j :: 0 <= i < j < |ks| ==> Less(ks[i].category, ks[j].category) }

  /** The minimums stand category by category, the cheapest first, and no candidate left of such a category
  goes before one that was taken. */
  ghost predicate TakesCheapest(optional: seq<Candidate>, union: seq<Candidate>) {
    && SortedBy(ReservedFirst, union)
    && forall a, b :: a in union && b in optional && b !in union && a.category == b.category ==> CostsLess(a, b)
  }

  /** The candidate's category is one of the constrained ones. */
  ghost predicate IsConstrained(ks: seq<Constraint>, c: Candidate) {
    exists i :: 0 <= i < |ks| && c.category == Some(ks[i].category)
  }

  lemma AheadOf(p: seq<Candidate>, n: nat, a: Candidate, b: Candidate)
    requires SortedBy(CostsLess, p) && a in Prefix(p, n) && b in p && b !in Prefix(p, n)
    ensures CostsLess(a, b)
  {
    var picks := Prefix(p, n);
    assert forall i :: 0 <= i < |picks| ==> picks[i] == p[i];
    var i :| 0 <= i < |picks| && picks[i] == a;
    var j :| 0 <= j < |p| && p[j] == b;
    if j < |picks| { assert picks[j] == b; }
  }

  lemma PicksAreFirst(required: seq<Candidate>, optional: seq<Candidate>, k: Constraint)
    requires DistinctIds(optional)
    ensures var picks := Prefix(Preferred(optional, k.category), Needed(k, required));
      && SortedBy(ReservedFirst, picks) && (forall c :: c in picks ==> c.category == Some(k.category))
      && forall a, b :: a in picks && b in optional && b !in picks && b.category == Some(k.category) ==> CostsLess(a, b)
  {
    var kept := Keep(optional, IsOf(k.category));
    KeepDistinct(optional, IsOf(k.category));
    ByCost(kept);
    var p := Preferred(optional, k.category);
    var picks := Prefix(p, Needed(k, required));
    assert forall i :: 0 <= i < |picks| ==> picks[i] == p[i] && p[i] in p;
    forall a, b | a in picks && b in optional && b !in picks && b.category == Some(k.category) ensures CostsLess(a, b) {
      AheadOf(p, Needed(k, required), a, b);
    }
  }

  lemma {:induction false} MinimumsTakeCheapest(required: seq<Candidate>, optional: seq<Candidate>, ks: seq<Constraint>)
    requires DistinctIds(optional) && InCategoryOrder(ks)
    ensures TakesCheapest(optional, Cheapest(required, optional, ks))
    ensures forall c :: c in Cheapest(required, optional, ks) ==> IsConstrained(ks, c)
  {
    if ks != [] {
      var n := |ks| - 1;
      MinimumsTakeCheapest(required, optional, ks[..n]);
      PicksAreFirst(required, optional, ks[n]);
      MinimumsExtend(optional, Cheapest(required, optional, ks[..n]), Prefix(Preferred(optional, ks[n].category), Needed(ks[n], required)), ks);
    }
  }

  /** One more category's picks. */
  lemma MinimumsExtend(optional: seq<Candidate>, before: seq<Candidate>, picks: seq<Candidate>, ks: seq<Constraint>)
    requires ks != [] && InCategoryOrder(ks) && TakesCheapest(optional, before) && SortedBy(ReservedFirst, picks)
    requires forall c :: c in before ==> IsConstrained(ks[..|ks| - 1], c)
    requires forall c :: c in picks ==> c.category == Some(ks[|ks| - 1].category)
    requires forall a, b :: a in picks && b in optional && b !in picks && b.category == Some(ks[|ks| - 1].category) ==> CostsLess(a, b)
    ensures TakesCheapest(optional, before + picks)
    ensures forall c :: c in before + picks ==> IsConstrained(ks, c)
  {
    var union, n := before + picks, |ks| - 1;
    forall c | c in before ensures c.category.Some? && Less(c.category.value, ks[n].category) && IsConstrained(ks, c) {
      var i :| 0 <= i < n && c.category == Some(ks[..n][i].category);
      assert ks[..n][i] == ks[i];
      LessTrichotomy(ks[i].category, ks[n].category);
    }
    forall i, j | 0 <= i < j < |union| ensures ReservedFirst(union[i], union[j]) {
      if i < |before| <= j { assert before[i] in before && picks[j - |before|] in picks; }
    }
    LessTrichotomy(ks[n].category, ks[n].category);
  }

  // ---------- the rest, by score ----------

  lemma {:induction false} GreedyAffordable(ks: seq<Constraint>, available: nat, start: seq<Candidate>, order: seq<Candidate>)
    requires Total(start, Tokens()) <= available
    ensures Total(Greedy(ks, available, start, order), Tokens()) <= available
  {
    if order != [] {
      var n := |order| - 1;
      GreedyAffordable(ks, available, start, order[..n]);
      TotalAdd(Greedy(ks, available, start, order[..n]), order[n], Tokens());
    }
  }

  /** The greedy pass takes a part of the order, in that order. */
  lemma {:induction false} GreedyInOrder(ks: seq<Constraint>, available: nat, start: seq<Candidate>, order: seq<Candidate>)
    requires SortedBy(ScoresHigher, order)
    ensures var chosen := Greedy(ks, available, start, order);
      start <= chosen && SortedBy(ScoresHigher, chosen[|start|..]) && forall c :: c in chosen[|start|..] ==> c in order
  {
    if order != [] {
      var n := |order| - 1;
      GreedyInOrder(ks, available, start, order[..n]);
      assert forall c :: c in order[..n] ==> c in order && ScoresHigher(c, order[n]);
      var before := Greedy(ks, available, start, order[..n]);
      if Admits(ks, available, before, order[n]) {
        OneMoreInOrder(before[|start|..], order[n]);
        assert (before + [order[n]])[|start|..] == before[|start|..] + [order[n]];
      }
    }
  }

  /** Candidates of an order that were left out, in that order. */
  ghost predicate AreLeftInOrder(order: seq<Candidate>, out: seq<Exclusion>) {
    && (forall i :: 0 <= i < |out| ==> out[i].candidate in order)
    && forall i, j :: 0 <= i < j < |out| ==> ScoresHigher(out[i].candidate, out[j].candidate)
  }

  /** It leaves the rest in that order too. */
  lemma {:induction false} ExclusionsInOrder(ks: seq<Constraint>, available: nat, start: seq<Candidate>, order: seq<Candidate>)
    requires SortedBy(ScoresHigher, order)
    ensures AreLeftInOrder(order, Exclusions(ks, available, start, order))
  {
    if order != [] {
      var n := |order| - 1;
      ExclusionsInOrder(ks, available, start, order[..n]);
      OneMoreLeft(order, Exclusions(ks, available, start, order[..n]), ExclusionOf(ks, available, Greedy(ks, available, start, order[..n]), order[n]));
    }
  }

  lemma OneMoreLeft(order: seq<Candidate>, out: seq<Exclusion>, e: Exclusion)
    requires SortedBy(ScoresHigher, order) && order != [] && e.candidate == order[|order| - 1]
    requires AreLeftInOrder(order[..|order| - 1], out)
    ensures AreLeftInOrder(order, out) && AreLeftInOrder(order, out + [e])
  {
    assert forall c :: c in order[..|order| - 1] ==> c in order && ScoresHigher(c, e.candidate);
  }

  lemma OneMoreInOrder(cs: seq<Candidate>, last: Candidate)
    requires SortedBy(ScoresHigher, cs) && forall i :: 0 <= i < |cs| ==> ScoresHigher(cs[i], last)
    ensures SortedBy(ScoresHigher, cs + [last])
  {
  }

  /** The candidate's category has all the blocks it may have. */
  ghost predicate AtItsMaximum(ks: seq<Constraint>, cs: seq<Candidate>, c: Candidate) {
    exists i :: 0 <= i < |ks| && c.category == Some(ks[i].category) && ks[i].maxBlocks.Some? && Count(cs, ks[i].category) >= ks[i].maxBlocks.value
  }

  lemma FullIffAtMaximum(ks: seq<Constraint>, cs: seq<Candidate>, c: Candidate)
    requires DistinctCategories(ks)
    ensures IsFull(ks, cs, c.category) <==> AtItsMaximum(ks, cs, c)
  {
    if i :| 0 <= i < |ks| && c.category == Some(ks[i].category) { GoverningIs(ks, i); }
    var k := Governing(ks, c.category);
    if k.Some? { var i :| 0 <= i < |ks| && ks[i] == k.value; }
  }

  /** A candidate left out was decided between the `m`-th inclusion and the next: those before it rank above
  it, those after it below, and its reason and remainder are those of that moment. */
  ghost predicate LeftOutAt(ks: seq<Constraint>, available: nat, chosen: seq<Candidate>, start: nat, e: Exclusion, m: nat) {
    && start <= m <= |chosen|
    && (forall i :: start <= i < m ==> ScoresHigher(chosen[i], e.candidate))
    && (forall i :: m <= i < |chosen| ==> ScoresHigher(e.candidate, chosen[i]))
    && Total(chosen[..m], Tokens()) + e.remaining == available
    && (e.reason.ExcludedCategoryMaximum? <==> AtItsMaximum(ks, chosen[..m], e.candidate))
    && (e.reason.ExcludedBudgetExhausted? ==> e.candidate.tokens > e.remaining)
  }

  ghost predicate IsLeftOut(ks: seq<Constraint>, available: nat, chosen: seq<Candidate>, start: nat, e: Exclusion) {
    exists m: nat :: LeftOutAt(ks, available, chosen, start, e, m)
  }

  lemma LeavesLast(ks: seq<Constraint>, available: nat, start: seq<Candidate>, order: seq<Candidate>, last: Candidate)
    requires DistinctCategories(ks) && Total(start, Tokens()) <= available
    requires SortedBy(ScoresHigher, order) && forall c :: c in order ==> ScoresHigher(c, last)
    requires !Admits(ks, available, Greedy(ks, available, start, order), last)
    ensures IsLeftOut(ks, available, Greedy(ks, available, start, order), |start|,
      ExclusionOf(ks, available, Greedy(ks, available, start, order), last))
  {
    var chosen := Greedy(ks, available, start, order);
    GreedyAffordable(ks, available, start, order);
    GreedyInOrder(ks, available, start, order);
    FullIffAtMaximum(ks, chosen, last);
    assert chosen[..|chosen|] == chosen;
    assert forall i :: |start| <= i < |chosen| ==> chosen[i] in chosen[|start|..];
    assert LeftOutAt(ks, available, chosen, |start|, ExclusionOf(ks, available, chosen, last), |chosen|);
  }

  lemma StaysLeftOut(ks: seq<Constraint>, available: nat, chosen: seq<Candidate>, start: nat, e: Exclusion, last: Candidate)
    requires IsLeftOut(ks, available, chosen, start, e) && ScoresHigher(e.candidate, last)
    ensures IsLeftOut(ks, available, chosen + [last], start, e)
  {
    var m: nat :| LeftOutAt(ks, available, chosen, start, e, m);
    assert (chosen + [last])[..m] == chosen[..m];
    assert LeftOutAt(ks, available, chosen + [last], start, e, m);
  }

  lemma AllStayLeftOut(ks: seq<Constraint>, available: nat, chosen: seq<Candidate>, start: nat, order: seq<Candidate>, out: seq<Exclusion>, last: Candidate)
    requires AreLeftInOrder(order, out) && forall c :: c in order ==> ScoresHigher(c, last)
    requires forall e :: e in out ==> IsLeftOut(ks, available, chosen, start, e)
    ensures forall e :: e in out ==> IsLeftOut(ks, available, chosen + [last], start, e)
  {
    forall e | e in out ensures IsLeftOut(ks, available, chosen + [last], start, e) {
      var i :| 0 <= i < |out| && out[i] == e;
      assert out[i].candidate in order;
      StaysLeftOut(ks, available, chosen, start, e, last);
    }
  }

  /** Every candidate the greedy pass leaves out has its place among those it takes. */
  lemma {:induction false} GreedyLeavesOut(ks: seq<Constraint>, available: nat, start: seq<Candidate>, order: seq<Candidate>)
    requires DistinctCategories(ks) && Total(start, Tokens()) <= available && SortedBy(ScoresHigher, order)
    ensures forall e :: e in Exclusions(ks, available, start, order) ==>
      IsLeftOut(ks, available, Greedy(ks, available, start, order), |start|, e)
  {
    if order != [] {
      var n := |order| - 1;
      var last, out := order[n], Exclusions(ks, available, start, order[..n]);
      GreedyLeavesOut(ks, available, start, order[..n]);
      ExclusionsInOrder(ks, available, start, order[..n]);
      assert forall c :: c in order[..n] ==> ScoresHigher(c, last);
      if Admits(ks, available, Greedy(ks, available, start, order[..n]), last) {
        AllStayLeftOut(ks, available, Greedy(ks, available, start, order[..n]), |start|, order[..n], out, last);
      } else {
        LeavesLast(ks, available, start, order[..n], last);
      }
    }
  }

  // ---------- an allocation ----------

  /** Which of two candidates selected for one reason is decided first. */
  predicate DecidedFirst(reason: IncludedReason, a: Candidate, b: Candidate) {
    match reason
    case IncludedRequired => NamedFirst(a, b)
    case IncludedCategoryMinimum => ReservedFirst(a, b)
    case IncludedScoreOrder => ScoresHigher(a, b)
  }

  ghost predicate InDecisionOrder(included: seq<Inclusion>) {
    forall i, j :: 0 <= i < j < |included| && included[i].reason == included[j].reason ==>
      DecidedFirst(included[i].reason, included[i].candidate, included[j].candidate)
  }

  /** No minimum is met with a candidate while a better one of its category was left for the score pass. */
  ghost predicate ReservesCheapest(included: seq<Inclusion>, others: seq<Candidate>) {
    forall x, c :: x in included && x.reason.IncludedCategoryMinimum? && c in others && c.category == x.candidate.category ==>
      CostsLess(x.candidate, c)
  }

  /** A candidate left out had at least the budget of every lower one that was taken by score, and no more than
  what every higher one left. */
  predicate HadItsTurn(x: Inclusion, e: Exclusion) {
    && (ScoresHigher(e.candidate, x.candidate) ==> e.remaining >= x.before)
    && (ScoresHigher(x.candidate, e.candidate) ==> e.remaining <= x.after)
  }

  ghost predicate AllHadTurns(included: seq<Inclusion>, excluded: seq<Exclusion>) {
    forall x, e :: x in included && e in excluded ==> HadItsTurn(x, e)
  }

  ghost predicate AreLeftOut(ks: seq<Constraint>, available: nat, chosen: seq<Candidate>, start: nat, excluded: seq<Exclusion>) {
    && (forall i, j :: 0 <= i < j < |excluded| ==> ScoresHigher(excluded[i].candidate, excluded[j].candidate))
    && forall e :: e in excluded ==> IsLeftOut(ks, available, chosen, start, e)
  }

  lemma ScorePassLeavesOut(ks: seq<Constraint>, available: nat, start: seq<Candidate>, order: seq<Candidate>,
      chosen: seq<Candidate>, m: nat, excluded: seq<Exclusion>)
    requires DistinctCategories(ks) && Total(start, Tokens()) <= available && SortedBy(ScoresHigher, order)
    requires chosen == Greedy(ks, available, start, order) && excluded == Exclusions(ks, available, start, order) && m == |start|
    ensures AreLeftOut(ks, available, chosen, m, excluded)
  {
    ExclusionsInOrder(ks, available, start, order);
    GreedyLeavesOut(ks, available, start, order);
  }

  /** The decisions of an allocation prefer the best; the first `reserved` come before the score pass. */
  ghost predicate PrefersTheBest(ks: seq<Constraint>, available: nat, a: Allocated, reserved: nat) {
    && reserved <= |a.included| && InDecisionOrder(a.included)
    && ReservesCheapest(a.included, Chosen(a.included)[reserved..] + Dropped(a.excluded))
    && AreLeftOut(ks, available, Chosen(a.included), reserved, a.excluded)
    && AllHadTurns(a.included[reserved..], a.excluded)
  }

  lemma PrefixTotal(cs: seq<Candidate>, m: nat, n: nat)
    requires m <= n <= |cs|
    ensures Total(cs[..m], Tokens()) <= Total(cs[..n], Tokens())
  {
    assert cs[..n] == cs[..m] + cs[m..n];
    TotalConcat(cs[..m], cs[m..n], Tokens());
  }

  lemma ScoresHigherOneWay(a: Candidate, b: Candidate)
    ensures !(ScoresHigher(a, b) && ScoresHigher(b, a))
  {
    LessTrichotomy(a.id, b.id);
  }

  lemma HadTurn(ks: seq<Constraint>, available: nat, chosen: seq<Candidate>, start: nat, e: Exclusion, i: nat, x: Inclusion)
    requires IsLeftOut(ks, available, chosen, start, e) && start <= i < |chosen| && x.candidate == chosen[i]
    requires x.before + Total(chosen[..i], Tokens()) == available == x.after + Total(chosen[..i + 1], Tokens())
    ensures HadItsTurn(x, e)
  {
    var m: nat :| LeftOutAt(ks, available, chosen, start, e, m);
    ScoresHigherOneWay(x.candidate, e.candidate);
    if m <= i { PrefixTotal(chosen, m, i); } else { PrefixTotal(chosen, i + 1, m); }
  }

  // ---------- a refusal ----------

  /** What the candidates before `c` cost. */
  function CostAhead(first: (Candidate, Candidate) -> bool, cs: seq<Candidate>, c: Candidate): nat {
    if cs == [] then 0 else (if first(cs[0], c) then cs[0].tokens else 0) + CostAhead(first, cs[1..], c)
  }

  lemma {:induction false} NothingAhead(first: (Candidate, Candidate) -> bool, cs: seq<Candidate>, c: Candidate)
    requires forall x :: x in cs ==> !first(x, c)
    ensures CostAhead(first, cs, c) == 0
  {
    if cs != [] { NothingAhead(first, cs[1..], c); }
  }

  ghost predicate OneWay(first: (Candidate, Candidate) -> bool) { forall a, b :: !(first(a, b) && first(b, a)) }

  lemma OrdersAreOneWay()
    ensures OneWay(NamedFirst) && OneWay(ReservedFirst)
  {
    forall a: Candidate, b: Candidate ensures !(NamedFirst(a, b) && NamedFirst(b, a)) && !(ReservedFirst(a, b) && ReservedFirst(b, a)) {
      LessTrichotomy(a.id, b.id);
      if a.category.Some? && b.category.Some? { LessTrichotomy(a.category.value, b.category.value); }
    }
  }

  /** The candidate named by a refusal: all before it fit, and it does not fit any more. */
  ghost predicate IsMisfit(first: (Candidate, Candidate) -> bool, cs: seq<Candidate>, budget: nat, c: Candidate) {
    c in cs && CostAhead(first, cs, c) <= budget < CostAhead(first, cs, c) + c.tokens
  }

  lemma {:induction false} MisfitIsFirst(first: (Candidate, Candidate) -> bool, cs: seq<Candidate>, budget: nat)
    requires SortedBy(first, cs) && OneWay(first)
    ensures Misfit(cs, budget).Some? ==> IsMisfit(first, cs, budget, Misfit(cs, budget).value)
    decreases |cs|
  {
    if Misfit(cs, budget).Some? {
      var c := Misfit(cs, budget).value;
      if cs[0].tokens > budget {
        NothingAhead(first, cs, c);
      } else {
        MisfitIsFirst(first, cs[1..], budget - cs[0].tokens);
        var i :| 0 <= i < |cs[1..]| && cs[1..][i] == c;
        assert first(cs[0], cs[i + 1]);
      }
    }
  }

  /** Issues stand category by category, an exceeded maximum before an unreachable minimum. */
  predicate ReportedFirst(a: CountIssue, b: CountIssue) {
    Less(a.category, b.category) || (a.category == b.category && a.MaximumExceeded? && b.MinimumUnreachable?)
  }

  lemma {:induction false} IssuesInOrder(required: seq<Candidate>, optional: seq<Candidate>, ks: seq<Constraint>)
    requires InCategoryOrder(ks)
    ensures SortedBy(ReportedFirst, AllIssues(required, optional, ks))
    ensures forall issue :: issue in AllIssues(required, optional, ks) ==> exists i :: 0 <= i < |ks| && issue.category == ks[i].category
  {
    if ks != [] {
      var n := |ks| - 1;
      IssuesInOrder(required, optional, ks[..n]);
      var before, last := AllIssues(required, optional, ks[..n]), IssuesOf(required, optional, ks[n]);
      forall issue | issue in before ensures Less(issue.category, ks[n].category) && exists i :: 0 <= i < |ks| && issue.category == ks[i].category {
        var i :| 0 <= i < n && issue.category == ks[..n][i].category;
        assert ks[..n][i] == ks[i];
      }
      assert forall issue :: issue in last ==> issue.category == ks[n].category;
      assert SortedBy(ReportedFirst, last);
      SortedConcat(before, last);
    }
  }

  lemma SortedConcat(a: seq<CountIssue>, b: seq<CountIssue>)
    requires SortedBy(ReportedFirst, a) && SortedBy(ReportedFirst, b)
    requires forall x, y :: x in a && y in b ==> ReportedFirst(x, y)
    ensures SortedBy(ReportedFirst, a + b)
  {
    var ab := a + b;
    forall i, j | 0 <= i < j < |ab| ensures ReportedFirst(ab[i], ab[j]) {
      if i < |a| <= j { assert ab[i] in a && ab[j] in b; }
    }
  }
}

/** Budget allocation: required candidates, the cheapest candidates every category minimum needs, then the
rest by score, and the order in which surplus may be given back. */
module Allocation {
  import opened Options
  import opened Utf16
  import opened Selections
  import opened Choices
  import opened Minimums

  datatype IncludedReason = IncludedRequired | IncludedCategoryMinimum | IncludedScoreOrder

  datatype ExcludedReason = ExcludedCategoryMaximum | ExcludedBudgetExhausted

  /** One selected candidate and the remainder of the budget around it. */
  datatype Inclusion = Inclusion(candidate: Candidate, reason: IncludedReason, before: nat, after: nat)

  datatype Exclusion = Exclusion(candidate: Candidate, reason: ExcludedReason, remaining: nat)

  datatype CountIssue = MaximumExceeded(category: Text) | MinimumUnreachable(category: Text)

  datatype Refusal =
    | CountsImpossible(issues: seq<CountIssue>)
    | RequiredExceedsBudget(misfit: Candidate)
    | MinimumsExceedBudget(misfit: Candidate)

  datatype Allocated = Allocated(included: seq<Inclusion>, excluded: seq<Exclusion>, unallocated: nat, evictionOrder: seq<Text>)

  function Chosen(included: seq<Inclusion>): (cs: seq<Candidate>)
    ensures |cs| == |included| && forall i :: 0 <= i < |cs| ==> cs[i] == included[i].candidate
  {
    seq(|included|, i requires 0 <= i < |included| => included[i].candidate)
  }

  function Dropped(excluded: seq<Exclusion>): (cs: seq<Candidate>)
    ensures |cs| == |excluded| && forall i :: 0 <= i < |cs| ==> cs[i] == excluded[i].candidate
  {
    seq(|excluded|, i requires 0 <= i < |excluded| => excluded[i].candidate)
  }

  // ---------- policies ----------

  /** What the policy schema accepts. */
  ghost predicate WellFormedPolicy(ks: seq<Constraint>) {
    && DistinctCategories(ks)
    && forall i :: 0 <= i < |ks| && ks[i].minBlocks.Some? && ks[i].maxBlocks.Some? ==> ks[i].minBlocks.value <= ks[i].maxBlocks.value
  }

  /** The constraint of a category, if it has one. */
  function Governing(ks: seq<Constraint>, category: Option<Text>): (k: Option<Constraint>)
    ensures k.Some? ==> k.value in ks && category == Some(k.value.category)
    ensures k.None? ==> forall i :: 0 <= i < |ks| ==> category != Some(ks[i].category)
  {
    if ks == [] then None
    else if category == Some(ks[|ks| - 1].category) then Some(ks[|ks| - 1])
    else Governing(ks[..|ks| - 1], category)
  }

  lemma GoverningIs(ks: seq<Constraint>, i: nat)
    requires DistinctCategories(ks) && i < |ks|
    ensures Governing(ks, Some(ks[i].category)) == Some(ks[i])
  {
    var k := Governing(ks, Some(ks[i].category)).value;
    var j :| 0 <= j < |ks| && ks[j] == k;
  }

  // ---------- counting before spending ----------

  ghost predicate Reports(k: Constraint, required: seq<Candidate>, optional: seq<Candidate>, issue: CountIssue) {
    match issue
    case MaximumExceeded(category) =>
      category == k.category && k.maxBlocks.Some? && Count(required, category) > k.maxBlocks.value
    case MinimumUnreachable(category) =>
      category == k.category && Count(optional, category) < Needed(k, required)
  }

  /** The issues of one category: its maximum before its minimum. */
  function IssuesOf(required: seq<Candidate>, optional: seq<Candidate>, k: Constraint): seq<CountIssue> {
    (if k.maxBlocks.Some? && Count(required, k.category) > k.maxBlocks.value then [MaximumExceeded(k.category)] else [])
    + if k.minBlocks.Some? && Count(optional, k.category) < Needed(k, required) then [MinimumUnreachable(k.category)] else []
  }

  function AllIssues(required: seq<Candidate>, optional: seq<Candidate>, ks: seq<Constraint>): seq<CountIssue> {
    if ks == [] then [] else AllIssues(required, optional, ks[..|ks| - 1]) + IssuesOf(required, optional, ks[|ks| - 1])
  }

  lemma IssuesReport(required: seq<Candidate>, optional: seq<Candidate>, k: Constraint, issue: CountIssue)
    ensures issue in IssuesOf(required, optional, k) <==> Reports(k, required, optional, issue)
  {
  }

  ghost predicate SomeReports(required: seq<Candidate>, optional: seq<Candidate>, ks: seq<Constraint>, issue: CountIssue) {
    exists i :: 0 <= i < |ks| && Reports(ks[i], required, optional, issue)
  }

  lemma SomeReportsSplits(required: seq<Candidate>, optional: seq<Candidate>, ks: seq<Constraint>, issue: CountIssue)
    requires ks != []
    ensures SomeReports(required, optional, ks, issue) <==>
      SomeReports(required, optional, ks[..|ks| - 1], issue) || Reports(ks[|ks| - 1], required, optional, issue)
  {
    var n := |ks| - 1;
    if i :| 0 <= i < |ks| && Reports(ks[i], required, optional, issue) {
      if i < n { assert Reports(ks[..n][i], required, optional, issue); }
    }
    if i :| 0 <= i < n && Reports(ks[..n][i], required, optional, issue) {
      assert Reports(ks[i], required, optional, issue);
    }
  }

  /** The issues are exactly what the constraints report, in their order. */
  lemma {:induction false} AllIssuesReport(required: seq<Candidate>, optional: seq<Candidate>, ks: seq<Constraint>, issue: CountIssue)
    ensures issue in AllIssues(required, optional, ks) <==> SomeReports(required, optional, ks, issue)
  {
    if ks != [] {
      var n := |ks| - 1;
      AllIssuesReport(required, optional, ks[..n], issue);
      IssuesReport(required, optional, ks[n], issue);
      SomeReportsSplits(required, optional, ks, issue);
    }
  }

  method DetectCategoryCountFailures(required: seq<Candidate>, optional: seq<Candidate>, ks: seq<Constraint>)
    returns (issues: seq<CountIssue>)
    ensures issues == AllIssues(required, optional, ks)
    ensures forall issue :: issue in issues <==> SomeReports(required, optional, ks, issue)
  {
    issues := [];
    for i := 0 to |ks|
      invariant issues == AllIssues(required, optional, ks[..i])
    {
      var k := ks[i];
      assert ks[..i + 1][..i] == ks[..i];
      if k.maxBlocks.Some? && Count(required, k.category) > k.maxBlocks.value {
        issues := issues + [MaximumExceeded(k.category)];
      }
      if k.minBlocks.Some? && Count(optional, k.category) < Needed(k, required) {
        issues := issues + [MinimumUnreachable(k.category)];
      }
    }
    assert ks[..|ks|] == ks;
    forall issue ensures issue in issues <==> SomeReports(required, optional, ks, issue) {
      AllIssuesReport(required, optional, ks, issue);
    }
  }

  /** No issue means every maximum admits the required candidates and every minimum can be reached. */
  ghost predicate Countable(required: seq<Candidate>, optional: seq<Candidate>, ks: seq<Constraint>) {
    && Reachable(required, optional, ks)
    && forall i :: 0 <= i < |ks| && ks[i].maxBlocks.Some? ==> Count(required, ks[i].category) <= ks[i].maxBlocks.value
  }

  lemma CountableIffNoIssue(required: seq<Candidate>, optional: seq<Candidate>, ks: seq<Constraint>)
    ensures AllIssues(required, optional, ks) == [] <==> Countable(required, optional, ks)
  {
    var issues := AllIssues(required, optional, ks);
    forall i | 0 <= i < |ks| && issues == []
      ensures Needed(ks[i], required) <= Count(optional, ks[i].category)
      ensures ks[i].maxBlocks.Some? ==> Count(required, ks[i].category) <= ks[i].maxBlocks.value
    {
      AllIssuesReport(required, optional, ks, MaximumExceeded(ks[i].category));
      AllIssuesReport(required, optional, ks, MinimumUnreachable(ks[i].category));
    }
    if issues != [] { AllIssuesReport(required, optional, ks, issues[0]); }
  }

  // ---------- the greedy choice ----------

  /** Whether a candidate may still be added to what is chosen. */
  predicate Admits(ks: seq<Constraint>, available: nat, chosen: seq<Candidate>, c: Candidate) {
    var k := Governing(ks, c.category);
    && (k.Some? && k.value.maxBlocks.Some? ==> Count(chosen, k.value.category) < k.value.maxBlocks.value)
    && Total(chosen, Tokens()) + c.tokens <= available
  }

  /** Candidates in order, each added if it may be. */
  function Greedy(ks: seq<Constraint>, available: nat, chosen: seq<Candidate>, order: seq<Candidate>): seq<Candidate> {
    if order == [] then chosen
    else
      var before := Greedy(ks, available, chosen, order[..|order| - 1]);
      if Admits(ks, available, before, order[|order| - 1]) then before + [order[|order| - 1]] else before
  }

  /** What is left of the budget after some candidates. */
  function Rest(available: nat, cs: seq<Candidate>): nat {
    if Total(cs, Tokens()) <= available then available - Total(cs, Tokens()) else 0
  }

  /** A category that has reached its maximum. */
  predicate IsFull(ks: seq<Constraint>, chosen: seq<Candidate>, category: Option<Text>) {
    var k := Governing(ks, category);
    k.Some? && k.value.maxBlocks.Some? && Count(chosen, k.value.category) >= k.value.maxBlocks.value
  }

  lemma AdmitsIff(ks: seq<Constraint>, available: nat, chosen: seq<Candidate>, c: Candidate)
    requires Total(chosen, Tokens()) <= available
    ensures Admits(ks, available, chosen, c) <==> !IsFull(ks, chosen, c.category) && c.tokens <= Rest(available, chosen)
  {
  }

  function ExclusionOf(ks: seq<Constraint>, available: nat, chosen: seq<Candidate>, c: Candidate): Exclusion {
    Exclusion(c, if IsFull(ks, chosen, c.category) then ExcludedCategoryMaximum else ExcludedBudgetExhausted, Rest(available, chosen))
  }

  /** What the greedy pass leaves out, with the reason and the remainder of its moment. */
  function Exclusions(ks: seq<Constraint>, available: nat, chosen: seq<Candidate>, order: seq<Candidate>): seq<Exclusion> {
    if order == [] then []
    else
      var n := |order| - 1;
      var before := Greedy(ks, available, chosen, order[..n]);
      Exclusions(ks, available, chosen, order[..n])
      + if Admits(ks, available, before, order[n]) then [] else [ExclusionOf(ks, available, before, order[n])]
  }

  /** The first candidate that does not fit when they are included one by one. */
  function Misfit(cs: seq<Candidate>, budget: nat): Option<Candidate> {
    if cs == [] then None
    else if cs[0].tokens > budget then Some(cs[0])
    else Misfit(cs[1..], budget - cs[0].tokens)
  }

  lemma MisfitStep(cs: seq<Candidate>, i: nat, budget: nat)
    requires i < |cs|
    ensures Misfit(cs[i..], budget) ==
      if cs[i].tokens > budget then Some(cs[i]) else Misfit(cs[i + 1..], budget - cs[i].tokens)
  {
    assert cs[i..][0] == cs[i] && cs[i..][1..] == cs[i + 1..];
  }

  // ---------- bookkeeping ----------

  /** What the first `n` inclusions leave. */
  function Left(available: nat, included: seq<Inclusion>, n: nat): nat
    requires n <= |included|
  {
    if n == 0 then available else included[n - 1].after
  }

  /** Each decision starts from what the one before it left. */
  ghost predicate Chained(available: nat, included: seq<Inclusion>, remaining: nat) {
    && (forall i {:trigger Left(available, included, i)} :: 0 <= i < |included| ==>
          included[i].before == Left(available, included, i) == included[i].after + included[i].candidate.tokens)
    && remaining == Left(available, included, |included|)
  }

  lemma TotalAdd(cs: seq<Candidate>, c: Candidate, w: Candidate -> nat)
    ensures Total(cs + [c], w) == Total(cs, w) + w(c)
  {
    assert (cs + [c])[..|cs|] == cs;
  }

  lemma ChainExtends(available: nat, included: seq<Inclusion>, remaining: nat, next: Inclusion)
    requires Chained(available, included, remaining)
    requires next.before == remaining == next.after + next.candidate.tokens
    ensures Chained(available, included + [next], next.after)
  {
    var all := included + [next];
    forall i | 0 <= i < |all| ensures all[i].before == Left(available, all, i) == all[i].after + all[i].candidate.tokens {
      assert i <= |included| && Left(available, all, i) == Left(available, included, i);
    }
  }

  /** The counter of a category after one more inclusion. */
  function Raise(selected: map<Text, nat>, category: Option<Text>): map<Text, nat> {
    if category.None? then selected else selected[category.value := Counted(selected, category.value) + 1]
  }

  ghost predicate CountsAll(selected: map<Text, nat>, cs: seq<Candidate>) {
    forall category :: Counted(selected, category) == Count(cs, category)
  }

  lemma CountAdd(cs: seq<Candidate>, c: Candidate, category: Text)
    ensures Count(cs + [c], category) == Count(cs, category) + if c.category == Some(category) then 1 else 0
  {
    assert (cs + [c])[..|cs|] == cs;
  }

  lemma CountersFollow(selected: map<Text, nat>, cs: seq<Candidate>, c: Candidate)
    requires CountsAll(selected, cs)
    ensures CountsAll(Raise(selected, c.category), cs + [c])
  {
    forall category ensures Counted(Raise(selected, c.category), category) == Count(cs + [c], category) {
      CountAdd(cs, c, category);
    }
  }

  lemma ContinuesOne(before: seq<Inclusion>, after: seq<Inclusion>, next: Inclusion)
    requires Continues(before, after, next.reason)
    ensures Continues(before, after + [next], next.reason)
  {
  }

  lemma ContinuesFurther(before: seq<Inclusion>, middle: seq<Inclusion>, after: seq<Inclusion>, reason: IncludedReason)
    requires Continues(before, middle, reason) && Continues(middle, after, reason)
    ensures Continues(before, after, reason)
  {
    forall i | |before| <= i < |after| ensures after[i].reason == reason {
      if i < |middle| { assert after[i] == middle[i]; }
    }
  }

  lemma OneMore(start: seq<Candidate>, cs: seq<Candidate>, i: nat)
    requires i < |cs|
    ensures start + cs[..i + 1] == (start + cs[..i]) + [cs[i]]
  {
    assert cs[..i + 1] == cs[..i] + [cs[i]];
  }

  lemma OneMoreDecided(decided: multiset<Candidate>, order: seq<Candidate>, i: nat)
    requires i < |order|
    ensures decided + multiset(order[..i + 1]) == (decided + multiset(order[..i])) + multiset{order[i]}
    ensures order[..i + 1][..i] == order[..i]
  {
    assert order[..i + 1] == order[..i] + [order[i]];
  }

  lemma OneMoreTotal(cs: seq<Candidate>, i: nat)
    requires i < |cs|
    ensures Total(cs[..i + 1], Tokens()) == Total(cs[..i], Tokens()) + cs[i].tokens <= Total(cs, Tokens())
  {
    var upTo := cs[..i + 1];
    assert upTo[..i] == cs[..i];
    assert cs == upTo + cs[i + 1..];
    TotalConcat(upTo, cs[i + 1..], Tokens());
  }

  /** Everything decided so far. */
  function Decided(included: seq<Inclusion>, excluded: seq<Exclusion>): multiset<Candidate> {
    multiset(Chosen(included)) + multiset(Dropped(excluded))
  }

  lemma DecidedIncluded(included: seq<Inclusion>, excluded: seq<Exclusion>, next: Inclusion)
    ensures Chosen(included + [next]) == Chosen(included) + [next.candidate]
    ensures Decided(included + [next], excluded) == Decided(included, excluded) + multiset{next.candidate}
  {
    assert Chosen(included + [next]) == Chosen(included) + [next.candidate];
  }

  lemma DecidedExcluded(included: seq<Inclusion>, excluded: seq<Exclusion>, next: Exclusion)
    ensures Decided(included, excluded + [next]) == Decided(included, excluded) + multiset{next.candidate}
  {
    assert Dropped(excluded + [next]) == Dropped(excluded) + [next.candidate];
  }

  /** An exclusion says why nothing was spent, and the reason still holds. */
  ghost predicate Justified(ks: seq<Constraint>, chosen: seq<Candidate>, remaining: nat, e: Exclusion) {
    match e.reason
    case ExcludedCategoryMaximum =>
      var k := Governing(ks, e.candidate.category);
      k.Some? && k.value.maxBlocks.Some? && Count(chosen, k.value.category) >= k.value.maxBlocks.value
    case ExcludedBudgetExhausted => e.candidate.tokens > e.remaining >= remaining
  }

  ghost predicate AllJustified(ks: seq<Constraint>, chosen: seq<Candidate>, remaining: nat, excluded: seq<Exclusion>) {
    forall e :: e in excluded ==> Justified(ks, chosen, remaining, e)
  }

  /** Including more does not undo a reason. */
  lemma ReasonsStay(ks: seq<Constraint>, chosen: seq<Candidate>, remaining: nat, excluded: seq<Exclusion>, c: Candidate, after: nat)
    requires AllJustified(ks, chosen, remaining, excluded) && after <= remaining
    ensures AllJustified(ks, chosen + [c], after, excluded)
  {
    forall e | e in excluded ensures Justified(ks, chosen + [c], after, e) {
      assert Justified(ks, chosen, remaining, e);
      var k := Governing(ks, e.candidate.category);
      if k.Some? { CountAdd(chosen, c, k.value.category); }
    }
  }

  /** Decisions added since, all for one reason. */
  ghost predicate Continues(before: seq<Inclusion>, after: seq<Inclusion>, reason: IncludedReason) {
    before <= after && forall i :: |before| <= i < |after| ==> after[i].reason == reason
  }

  /** The mutable bookkeeping of one allocation run. */
  class Allocator {
    const constraints: seq<Constraint>
    const available: nat
    var remaining: nat
    var included: seq<Inclusion>
    var excluded: seq<Exclusion>
    var selected: map<Text, nat>

    constructor (constraints: seq<Constraint>, available: nat)
      ensures this.constraints == constraints && this.available == available
      ensures Valid() && included == [] && excluded == [] && remaining == available
    {
      this.constraints, this.available := constraints, available;
      remaining, included, excluded, selected := available, [], [], map[];
    }

    /** Nothing is spent that is not recorded, and the counters count what is included. */
    ghost predicate Valid()
      reads this
    {
      && Chained(available, included, remaining)
      && remaining + Total(Chosen(included), Tokens()) == available
      && CountsAll(selected, Chosen(included))
    }

    method Include(c: Candidate, reason: IncludedReason)
      requires Valid() && c.tokens <= remaining
      modifies this`remaining, this`included, this`selected
      ensures Valid() && remaining == old(remaining) - c.tokens
      ensures included == old(included) + [Inclusion(c, reason, old(remaining), remaining)]
      ensures Chosen(included) == old(Chosen(included)) + [c]
    {
      var next := Inclusion(c, reason, remaining, remaining - c.tokens);
      ChainExtends(available, included, remaining, next);
      TotalAdd(Chosen(included), c, Tokens());
      CountersFollow(selected, Chosen(included), c);
      assert Chosen(included + [next]) == Chosen(included) + [c];
      remaining := next.after;
      included := included + [next];
      selected := Raise(selected, c.category);
    }

    ghost predicate IncludedSoFar(start: seq<Candidate>, before: seq<Inclusion>, budget: nat, cs: seq<Candidate>, i: nat, reason: IncludedReason)
      reads this
    {
      && Valid() && i <= |cs| && Chosen(included) == start + cs[..i] && Continues(before, included, reason)
      && remaining + Total(cs[..i], Tokens()) == budget && Misfit(cs[i..], remaining) == Misfit(cs, budget)
    }

    method IncludeNext(ghost start: seq<Candidate>, ghost before: seq<Inclusion>, ghost budget: nat, cs: seq<Candidate>, i: nat, reason: IncludedReason)
      requires i < |cs| && IncludedSoFar(start, before, budget, cs, i, reason) && cs[i].tokens <= remaining
      modifies this`remaining, this`included, this`selected
      ensures IncludedSoFar(start, before, budget, cs, i + 1, reason)
    {
      OneMore(start, cs, i);
      OneMoreTotal(cs, i);
      MisfitStep(cs, i, remaining);
      ContinuesOne(before, included, Inclusion(cs[i], reason, remaining, remaining - cs[i].tokens));
      Include(cs[i], reason);
    }

    /** Includes candidates one by one until one does not fit: all of them fit exactly when their sum does. */
    method IncludeAll(cs: seq<Candidate>, reason: IncludedReason) returns (misfit: Option<Candidate>)
      requires Valid()
      modifies this`remaining, this`included, this`selected
      ensures Valid() && (misfit.None? <==> Total(cs, Tokens()) <= old(remaining))
      ensures misfit.None? ==> Chosen(included) == old(Chosen(included)) + cs && Continues(old(included), included, reason)
      ensures misfit == Misfit(cs, old(remaining))
    {
      ghost var start, before, budget := Chosen(included), included, remaining;
      misfit := None;
      assert cs[0..] == cs;
      for i := 0 to |cs|
        invariant IncludedSoFar(start, before, budget, cs, i, reason)
      {
        if cs[i].tokens > remaining {
          OneMoreTotal(cs, i);
          MisfitStep(cs, i, remaining);
          misfit := Some(cs[i]);
          return;
        }
        IncludeNext(start, before, budget, cs, i, reason);
      }
      assert cs[..|cs|] == cs;
    }

    function SelectedCount(category: Option<Text>): nat
      reads this
    {
      if category.None? then 0 else Counted(selected, category.value)
    }

    /** Whether the counters show a category at its maximum. */
    predicate AtMaximum(category: Option<Text>)
      requires Valid()
      reads this
      ensures AtMaximum(category) == IsFull(constraints, Chosen(included), category)
    {
      var k := Governing(constraints, category);
      k.Some? && k.value.maxBlocks.Some? && SelectedCount(category) >= k.value.maxBlocks.value
    }

    /** Every decision accounted for, every exclusion still justified. */
    ghost predicate Settled(decided: multiset<Candidate>)
      reads this
    {
      Decided(included, excluded) == decided && AllJustified(constraints, Chosen(included), remaining, excluded)
    }

    method Exclude(c: Candidate, reason: ExcludedReason, ghost decided: multiset<Candidate>)
      requires Valid() && Settled(decided) && Justified(constraints, Chosen(included), remaining, Exclusion(c, reason, remaining))
      modifies this`excluded
      ensures Valid() && Settled(decided + multiset{c})
      ensures excluded == old(excluded) + [Exclusion(c, reason, remaining)]
    {
      DecidedExcluded(included, excluded, Exclusion(c, reason, remaining));
      excluded := excluded + [Exclusion(c, reason, remaining)];
    }

    method Take(c: Candidate, ghost decided: multiset<Candidate>)
      requires Valid() && Settled(decided) && c.tokens <= remaining
      modifies this
      ensures Valid() && Settled(decided + multiset{c})
      ensures Chosen(included) == old(Chosen(included)) + [c] && Continues(old(included), included, IncludedScoreOrder)
      ensures excluded == old(excluded)
    {
      ghost var was, next := included, Inclusion(c, IncludedScoreOrder, remaining, remaining - c.tokens);
      ReasonsStay(constraints, Chosen(was), remaining, excluded, c, next.after);
      DecidedIncluded(was, excluded, next);
      ContinuesOne(was, was, next);
      Include(c, IncludedScoreOrder);
      assert included == was + [next];
    }

    /** One candidate in score order: excluded when its category is full or the budget too short, included
    otherwise. */
    method Decide(c: Candidate, ghost decided: multiset<Candidate>)
      requires Valid() && Settled(decided)
      modifies this
      ensures Valid() && Settled(decided + multiset{c})
      ensures Chosen(included) ==
        old(Chosen(included)) + if Admits(constraints, available, old(Chosen(included)), c) then [c] else []
      ensures excluded == old(excluded) + if Admits(constraints, available, old(Chosen(included)), c) then []
                                          else [ExclusionOf(constraints, available, old(Chosen(included)), c)]
      ensures Continues(old(included), included, IncludedScoreOrder)
    {
      AdmitsIff(constraints, available, Chosen(included), c);
      if AtMaximum(c.category) {
        Exclude(c, ExcludedCategoryMaximum, decided);
      } else if c.tokens > remaining {
        Exclude(c, ExcludedBudgetExhausted, decided);
      } else {
        Take(c, decided);
      }
    }

    ghost predicate DecidedSoFar(start: seq<Candidate>, before: seq<Inclusion>, left: seq<Exclusion>, decided: multiset<Candidate>, order: seq<Candidate>, i: nat)
      reads this
    {
      && Valid() && i <= |order| && Settled(decided + multiset(order[..i]))
      && Chosen(included) == Greedy(constraints, available, start, order[..i]) && Continues(before, included, IncludedScoreOrder)
      && excluded == left + Exclusions(constraints, available, start, order[..i])
    }

    method DecideNext(ghost start: seq<Candidate>, ghost before: seq<Inclusion>, ghost left: seq<Exclusion>, ghost decided: multiset<Candidate>,
        order: seq<Candidate>, i: nat)
      requires i < |order| && DecidedSoFar(start, before, left, decided, order, i)
      modifies this
      ensures DecidedSoFar(start, before, left, decided, order, i + 1)
    {
      OneMoreDecided(decided, order, i);
      ghost var middle := included;
      Decide(order[i], decided + multiset(order[..i]));
      ContinuesFurther(before, middle, included, IncludedScoreOrder);
    }

    /** The rest by score: exactly the greedy choice, every candidate decided once, and every exclusion with
    the reason and the remainder of its moment. */
    method AllocateOptional(order: seq<Candidate>, ghost decided: multiset<Candidate>)
      requires Valid() && Settled(decided)
      modifies this
      ensures Valid() && Settled(decided + multiset(order))
      ensures Chosen(included) == Greedy(constraints, available, old(Chosen(included)), order)
      ensures excluded == old(excluded) + Exclusions(constraints, available, old(Chosen(included)), order)
      ensures Continues(old(included), included, IncludedScoreOrder)
    {
      ghost var start, before, left := Chosen(included), included, excluded;
      for i := 0 to |order|
        invariant DecidedSoFar(start, before, left, decided, order, i)
      {
        DecideNext(start, before, left, decided, order, i);
      }
      assert order[..|order|] == order;
    }
  }
}

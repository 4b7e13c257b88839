/** A compilation from its eligible candidates to a published selection: allocation, the cheap path along
the eviction order, the fallback search, and the check of the result. */
module Compilation {
  import opened Options
  import opened Results
  import opened Utf16
  import opened Numbers
  import opened Selections
  import opened Choices
  import opened Allocation
  import opened Eviction
  import opened BudgetAllocator
  import opened Correction
  import opened Fallback
  import opened FallbackChoice

  // ---------- the cheap path ----------

  /** Gives back ever longer prefixes of the eviction order, from the `n`-th on, until what is left fits. */
  function GivingBack(available: nat, render: set<Text> -> Option<nat>, ids: set<Text>, order: seq<Text>, n: nat): Option<Outcome<set<Text>>>
    decreases |order| + 1 - n
  {
    if n > |order| then None
    else
      match render(ids - Given(order, n))
      case None => Some(Unmeasurable)
      case Some(tokens) =>
        if tokens <= available then Some(Settled(ids - Given(order, n), tokens, Evicted))
        else GivingBack(available, render, ids, order, n + 1)
  }

  /** The search, unless the cheap path already answered. */
  function AfterGiving(given: Option<Outcome<set<Text>>>, s: Searched): Searched {
    if given.Some? then Searched(given.value, {}) else s
  }

  /** Settling the rendered budget of a selection with its eviction order. */
  function SettleOf(eligible: seq<Candidate>, constraints: seq<Constraint>, available: nat, max: nat, render: set<Text> -> Option<nat>,
      ids: set<Text>, order: seq<Text>): Searched
  {
    match render(ids)
    case None => Searched(Unmeasurable, {})
    case Some(tokens) =>
      if tokens <= available then Searched(Settled(ids, tokens, Initial), {})
      else AfterGiving(GivingBack(available, render, ids, order, 1), SearchOf(eligible, constraints, available, max, render))
  }

  // ---------- what settling means ----------

  ghost predicate MeasuredOver(render: set<Text> -> Option<nat>, available: nat, ids: set<Text>) {
    render(ids).Some? && render(ids).value > available
  }

  predicate RendersWithin(render: set<Text> -> Option<nat>, available: nat, ids: set<Text>) {
    render(ids).Some? && render(ids).value <= available
  }

  /** Every prefix before the `n`-th entry, the empty one included, is rendered over budget. */
  ghost predicate AllOver(available: nat, render: set<Text> -> Option<nat>, ids: set<Text>, order: seq<Text>, n: nat)
    requires n <= |order| + 1
  {
    forall m :: 0 <= m < n ==> MeasuredOver(render, available, ids - Given(order, m))
  }

  /** Which selection is settled on: the allocator's, the first prefix that fits, the first hard base, or
  the first of all others. */
  ghost predicate IsChoice(eligible: seq<Candidate>, constraints: seq<Constraint>, available: nat, render: set<Text> -> Option<nat>,
      ids: set<Text>, order: seq<Text>, o: Outcome<set<Text>>)
  {
    match o
    case Settled(s, _, Initial) => s == ids
    case Settled(s, _, Evicted) =>
      exists n :: 0 < n <= |order| && s == ids - Given(order, n) && AllOver(available, render, ids, order, n)
    case Settled(_, _, _) =>
      AllOver(available, render, ids, order, |order| + 1) && IsFallbackChoice(eligible, constraints, available, render, o)
    case Exhausted(_) => AllOver(available, render, ids, order, |order| + 1)
    case _ => true
  }

  /** A selection the policy and the ceiling admit, with an eviction order whose every prefix is safe. */
  ghost predicate IsStart(eligible: seq<Candidate>, constraints: seq<Constraint>, available: nat, ids: set<Text>, order: seq<Text>) {
    && ids <= Ids(eligible) && Content(eligible, ids) <= available
    && EveryPrefixSafe(eligible, constraints, ids, order)
  }

  /** A prefix of the eviction order leaves a selection the policy and the ceiling admit. */
  lemma PrefixAdmitted(eligible: seq<Candidate>, constraints: seq<Constraint>, available: nat, ids: set<Text>, order: seq<Text>, n: nat)
    requires IsStart(eligible, constraints, available, ids, order) && n <= |order|
    ensures MeetsPolicy(eligible, constraints, ids - Given(order, n)) && Content(eligible, ids - Given(order, n)) <= available
    ensures Feasible(eligible, constraints, available)
  {
    ContentMonotone(eligible, ids - Given(order, n), ids, Tokens());
    assert MeetsPolicy(eligible, constraints, ids - Given(order, n));
  }

  lemma NothingGiven(ids: set<Text>, order: seq<Text>)
    ensures ids - Given(order, 0) == ids
  {
  }

  lemma OneMoreOver(available: nat, render: set<Text> -> Option<nat>, ids: set<Text>, order: seq<Text>, n: nat)
    requires n <= |order| && AllOver(available, render, ids, order, n) && MeasuredOver(render, available, ids - Given(order, n))
    ensures AllOver(available, render, ids, order, n + 1)
  {
  }

  ghost predicate IsSound(eligible: seq<Candidate>, constraints: seq<Constraint>, available: nat, max: nat, render: set<Text> -> Option<nat>,
      ids: set<Text>, order: seq<Text>, s: Searched)
  {
    && IsAnswer(eligible, constraints, available, render, s.outcome)
    && IsChoice(eligible, constraints, available, render, ids, order, s.outcome)
    && IsBounded(eligible, constraints, max, s)
  }

  /** The cheap path stops at the first prefix that fits, with everything before it measured over budget. */
  lemma {:induction false} GivingSound(eligible: seq<Candidate>, constraints: seq<Constraint>, available: nat, max: nat, render: set<Text> -> Option<nat>,
      ids: set<Text>, order: seq<Text>, n: nat)
    requires IsStart(eligible, constraints, available, ids, order) && 0 < n <= |order| + 1 && AllOver(available, render, ids, order, n)
    ensures var given := GivingBack(available, render, ids, order, n);
      if given.Some? then IsSound(eligible, constraints, available, max, render, ids, order, Searched(given.value, {}))
      else AllOver(available, render, ids, order, |order| + 1)
    decreases |order| + 1 - n
  {
    if n <= |order| {
      PrefixAdmitted(eligible, constraints, available, ids, order, n);
      var left := ids - Given(order, n);
      if render(left).None? {
        assert left <= Ids(eligible);
      } else if render(left).value > available {
        OneMoreOver(available, render, ids, order, n);
        GivingSound(eligible, constraints, available, max, render, ids, order, n + 1);
      }
    }
  }

  /** Settling means what it says, for an arbitrary tokenizer and every bound. */
  lemma SettleSound(eligible: seq<Candidate>, constraints: seq<Constraint>, available: nat, max: nat, render: set<Text> -> Option<nat>,
      ids: set<Text>, order: seq<Text>)
    requires DistinctIds(eligible) && WellFormedPolicy(constraints) && IsStart(eligible, constraints, available, ids, order)
    ensures IsSound(eligible, constraints, available, max, render, ids, order,
      SettleOf(eligible, constraints, available, max, render, ids, order))
  {
    NothingGiven(ids, order);
    PrefixAdmitted(eligible, constraints, available, ids, order, 0);
    if MeasuredOver(render, available, ids) {
      GivingSound(eligible, constraints, available, max, render, ids, order, 1);
      if GivingBack(available, render, ids, order, 1).None? {
        SearchSound(eligible, constraints, available, max, render);
        SearchIsChoice(eligible, constraints, available, render, ids, order, SearchOf(eligible, constraints, available, max, render).outcome);
      }
    }
  }

  lemma SearchIsChoice(eligible: seq<Candidate>, constraints: seq<Constraint>, available: nat, render: set<Text> -> Option<nat>,
      ids: set<Text>, order: seq<Text>, o: Outcome<set<Text>>)
    requires AllOver(available, render, ids, order, |order| + 1) && IsFallbackChoice(eligible, constraints, available, render, o)
    ensures IsChoice(eligible, constraints, available, render, ids, order, o)
  {
  }

  // ---------- when settling succeeds ----------

  /** Some selection the policy and the content ceiling admit is rendered within the budget. */
  ghost predicate SomethingFits(eligible: seq<Candidate>, constraints: seq<Constraint>, available: nat, render: set<Text> -> Option<nat>) {
    exists ids :: MeetsPolicy(eligible, constraints, ids) && Fits(available, render, Key(ids, Content(eligible, ids)))
  }

  /** The tokenizer counts every rendering of eligible blocks. */
  ghost predicate CountsAlways(eligible: seq<Candidate>, render: set<Text> -> Option<nat>) {
    forall ids :: ids <= Ids(eligible) ==> render(ids).Some?
  }

  lemma ProperSubset(small: set<set<Text>>, large: set<set<Text>>, x: set<Text>)
    requires small <= large && x in large && x !in small
    ensures |small| < |large|
  {
    assert large == small + (large - small);
    assert x in large - small;
  }

  /** The limit is never reported when the bound covers everything there is to visit. */
  lemma LimitNeeds(eligible: seq<Candidate>, constraints: seq<Constraint>, max: nat, s: Searched)
    requires IsBounded(eligible, constraints, max, s)
    ensures s.outcome.SearchLimitExceeded? ==> max < |Visitable(eligible, constraints)|
    ensures s.outcome.Exhausted? ==> |Visitable(eligible, constraints)| <= max
  {
    if s.outcome.SearchLimitExceeded? {
      var ids :| ids in Visitable(eligible, constraints) && ids !in s.visited;
      ProperSubset(s.visited, Visitable(eligible, constraints), ids);
    }
  }

  /** With a tokenizer that counts and a bound that covers the policy's selections, settling succeeds exactly
  when something fits, and is exhausted otherwise. */
  lemma SettlesIffSomethingFits(eligible: seq<Candidate>, constraints: seq<Constraint>, available: nat, max: nat, render: set<Text> -> Option<nat>,
      ids: set<Text>, order: seq<Text>)
    requires DistinctIds(eligible) && WellFormedPolicy(constraints) && IsStart(eligible, constraints, available, ids, order)
    requires CountsAlways(eligible, render) && |Visitable(eligible, constraints)| <= max
    ensures var o := SettleOf(eligible, constraints, available, max, render, ids, order).outcome;
      if SomethingFits(eligible, constraints, available, render) then o.Settled? else o.Exhausted?
  {
    var s := SettleOf(eligible, constraints, available, max, render, ids, order);
    SettleSound(eligible, constraints, available, max, render, ids, order);
    LimitNeeds(eligible, constraints, max, s);
    SettledFits(eligible, constraints, available, render, s.outcome);
  }

  /** What is settled on fits, and nothing does when the search is exhausted. */
  lemma SettledFits(eligible: seq<Candidate>, constraints: seq<Constraint>, available: nat, render: set<Text> -> Option<nat>, o: Outcome<set<Text>>)
    requires IsAnswer(eligible, constraints, available, render, o)
    ensures o.Settled? ==> SomethingFits(eligible, constraints, available, render)
    ensures o.Exhausted? ==> !SomethingFits(eligible, constraints, available, render)
  {
    if o.Settled? { assert Fits(available, render, Key(o.selection, Content(eligible, o.selection))); }
  }

  /** Where nothing fits, the limit is reported exactly when the bound is too small to visit everything. */
  lemma LimitIffTooSmall(eligible: seq<Candidate>, constraints: seq<Constraint>, available: nat, max: nat, render: set<Text> -> Option<nat>,
      ids: set<Text>, order: seq<Text>)
    requires DistinctIds(eligible) && WellFormedPolicy(constraints) && IsStart(eligible, constraints, available, ids, order)
    requires CountsAlways(eligible, render) && !SomethingFits(eligible, constraints, available, render)
    ensures var o := SettleOf(eligible, constraints, available, max, render, ids, order).outcome;
      if max < |Visitable(eligible, constraints)| then o.SearchLimitExceeded? else o.Exhausted?
  {
    var s := SettleOf(eligible, constraints, available, max, render, ids, order);
    SettleSound(eligible, constraints, available, max, render, ids, order);
    LimitNeeds(eligible, constraints, max, s);
    SettledFits(eligible, constraints, available, render, s.outcome);
  }

  // ---------- the result ----------

  /** The result check recomputes the content and refuses what is over the ceiling or no safe integer. */
  predicate IsPublishable(available: nat, content: nat) { content <= MAX_SAFE_INTEGER && content <= available }

  function Checked(eligible: seq<Candidate>, available: nat, s: Searched): Searched {
    if s.outcome.Settled? && !IsPublishable(available, Content(eligible, s.outcome.selection)) then Searched(InvalidResult, s.visited) else s
  }

  function UnlessRefused(refusal: Option<Refusal>, s: Searched): Searched {
    if refusal.Some? then Searched(Refused(refusal.value), {}) else s
  }

  /** The identifiers the allocator selects. */
  function AllocatedIds(eligible: seq<Candidate>, constraints: seq<Constraint>, available: nat): set<Text> {
    Ids(SelectionOf(eligible, constraints, available))
  }

  /** The eviction order it publishes with them. */
  ghost function AllocatedOrder(eligible: seq<Candidate>, constraints: seq<Constraint>, available: nat): seq<Text> {
    IdList(EvictedOf(eligible, constraints, SelectionOf(eligible, constraints, available)))
  }

  /** How a compilation ends, and what its search visited. */
  ghost function CompileOf(eligible: seq<Candidate>, constraints: seq<Constraint>, available: nat, max: nat, render: set<Text> -> Option<nat>): Searched {
    UnlessRefused(RefusalFor(eligible, constraints, available), Checked(eligible, available,
      SettleOf(eligible, constraints, available, max, render,
        AllocatedIds(eligible, constraints, available), AllocatedOrder(eligible, constraints, available))))
  }

  lemma AllocationStarts(eligible: seq<Candidate>, constraints: seq<Constraint>, available: nat)
    requires DistinctIds(eligible) && WellFormedPolicy(constraints)
    ensures RefusalFor(eligible, constraints, available).None? <==> Feasible(eligible, constraints, available)
    ensures RefusalFor(eligible, constraints, available).None? ==>
      IsStart(eligible, constraints, available, AllocatedIds(eligible, constraints, available), AllocatedOrder(eligible, constraints, available))
  {
    if Feasible(eligible, constraints, available) { FeasibleIffNotRefused(eligible, constraints, available); }
    if RefusalFor(eligible, constraints, available).None? {
      SelectionStarts(eligible, constraints, available);
      var chosen := SelectionOf(eligible, constraints, available);
      assert MeetsPolicy(eligible, constraints, Ids(chosen));
    }
  }

  /** A selection that may be published: allowed by the policy, its content and its rendering within the budget. */
  ghost predicate IsPublished(eligible: seq<Candidate>, constraints: seq<Constraint>, available: nat, render: set<Text> -> Option<nat>, ids: set<Text>, tokens: nat) {
    && MeetsPolicy(eligible, constraints, ids) && Content(eligible, ids) <= available
    && render(ids) == Some(tokens) && tokens <= available
  }

  /** What each end of a compilation means. */
  ghost predicate IsVerdict(eligible: seq<Candidate>, constraints: seq<Constraint>, available: nat, render: set<Text> -> Option<nat>, o: Outcome<set<Text>>) {
    match o
    case Settled(ids, tokens, _) => IsPublished(eligible, constraints, available, render, ids, tokens)
    case Refused(refusal) => !Feasible(eligible, constraints, available) && Explained(eligible, constraints, available, refusal)
    case InvalidResult =>
      exists ids :: MeetsPolicy(eligible, constraints, ids) && Content(eligible, ids) > MAX_SAFE_INTEGER && RendersWithin(render, available, ids)
    case _ => IsAnswer(eligible, constraints, available, render, o)
  }

  /** Which selection is published: what was given back for it is the worst that could be, and what a fallback
  settled on is preferred to everything else that fits. */
  ghost predicate IsPreferred(eligible: seq<Candidate>, constraints: seq<Constraint>, available: nat, render: set<Text> -> Option<nat>, o: Outcome<set<Text>>) {
    && IsChoice(eligible, constraints, available, render,
         AllocatedIds(eligible, constraints, available), AllocatedOrder(eligible, constraints, available), o)
    && (o.Settled? && o.phase.Evicted? ==> KeepsTheBest(eligible, constraints, AllocatedIds(eligible, constraints, available), o.selection))
    && IsBestFit(eligible, constraints, available, render, o)
  }

  /** The cheap path gives back the lowest scores first, and on equal scores the largest identifiers. */
  lemma ChoiceKeepsBest(eligible: seq<Candidate>, constraints: seq<Constraint>, available: nat, render: set<Text> -> Option<nat>, o: Outcome<set<Text>>)
    requires DistinctIds(eligible) && WellFormedPolicy(constraints) && RefusalFor(eligible, constraints, available).None?
    requires o.Settled? && o.phase.Evicted?
    requires IsChoice(eligible, constraints, available, render,
      AllocatedIds(eligible, constraints, available), AllocatedOrder(eligible, constraints, available), o)
    ensures KeepsTheBest(eligible, constraints, AllocatedIds(eligible, constraints, available), o.selection)
  {
    var n: nat :| 0 < n <= |AllocatedOrder(eligible, constraints, available)|
      && o.selection == AllocatedIds(eligible, constraints, available) - Given(AllocatedOrder(eligible, constraints, available), n);
    SelectionStarts(eligible, constraints, available);
    EvictionKeepsBest(eligible, constraints, SelectionOf(eligible, constraints, available), n);
  }

  lemma ChoiceIsPreferred(eligible: seq<Candidate>, constraints: seq<Constraint>, available: nat, render: set<Text> -> Option<nat>, o: Outcome<set<Text>>)
    requires DistinctIds(eligible) && WellFormedPolicy(constraints) && o.Settled?
    requires RefusalFor(eligible, constraints, available).None? && Feasible(eligible, constraints, available)
    requires IsChoice(eligible, constraints, available, render,
      AllocatedIds(eligible, constraints, available), AllocatedOrder(eligible, constraints, available), o)
    ensures IsPreferred(eligible, constraints, available, render, o)
  {
    if o.phase.Evicted? { ChoiceKeepsBest(eligible, constraints, available, render, o); }
    if o.phase.HardBase? || o.phase.PolicyRescue? { ChoiceIsBest(eligible, constraints, available, render, o); }
  }

  /** Whatever a compilation publishes lies under the content ceiling, and every other end means what it says. */
  lemma CompileSound(eligible: seq<Candidate>, constraints: seq<Constraint>, available: nat, max: nat, render: set<Text> -> Option<nat>)
    requires DistinctIds(eligible) && WellFormedPolicy(constraints) && available <= MAX_SAFE_INTEGER
    ensures var s := CompileOf(eligible, constraints, available, max, render);
      && IsVerdict(eligible, constraints, available, render, s.outcome)
      && (s.outcome.Refused? <==> !Feasible(eligible, constraints, available))
      && IsBounded(eligible, constraints, max, s)
      && (s.outcome.Settled? ==> IsPreferred(eligible, constraints, available, render, s.outcome))
  {
    AllocationStarts(eligible, constraints, available);
    RefusalExplained(eligible, constraints, available);
    if Feasible(eligible, constraints, available) {
      var ids, order := AllocatedIds(eligible, constraints, available), AllocatedOrder(eligible, constraints, available);
      var s := SettleOf(eligible, constraints, available, max, render, ids, order);
      SettleSound(eligible, constraints, available, max, render, ids, order);
      CheckedSound(eligible, constraints, available, max, render, s);
      if s.outcome.Settled? { ChoiceIsPreferred(eligible, constraints, available, render, s.outcome); }
    }
  }

  lemma CheckedSound(eligible: seq<Candidate>, constraints: seq<Constraint>, available: nat, max: nat, render: set<Text> -> Option<nat>, s: Searched)
    requires available <= MAX_SAFE_INTEGER
    requires IsAnswer(eligible, constraints, available, render, s.outcome) && IsBounded(eligible, constraints, max, s)
    ensures IsVerdict(eligible, constraints, available, render, Checked(eligible, available, s).outcome)
    ensures IsBounded(eligible, constraints, max, Checked(eligible, available, s)) && !Checked(eligible, available, s).outcome.Refused?
  {
    if s.outcome.Settled? {
      var ids := s.outcome.selection;
      assert IsSettled(eligible, constraints, available, render, ids, s.outcome.renderedTokens);
    }
  }

  // ---------- when a compilation publishes ----------

  /** Some selection the policy allows has its content and its rendering within the budget. */
  ghost predicate SomethingWorks(eligible: seq<Candidate>, constraints: seq<Constraint>, available: nat, render: set<Text> -> Option<nat>) {
    exists ids, tokens :: IsPublished(eligible, constraints, available, render, ids, tokens)
  }

  /** No selection the policy allows costs more than a safe integer. */
  ghost predicate AllSafe(eligible: seq<Candidate>, constraints: seq<Constraint>) {
    forall ids :: MeetsPolicy(eligible, constraints, ids) ==> Content(eligible, ids) <= MAX_SAFE_INTEGER
  }

  /** Where every allowed sum is safe, a compilation publishes exactly when something works, and is refused or
  exhausted otherwise. */
  lemma PublishesIffSomethingWorks(eligible: seq<Candidate>, constraints: seq<Constraint>, available: nat, max: nat, render: set<Text> -> Option<nat>)
    requires DistinctIds(eligible) && WellFormedPolicy(constraints) && available <= MAX_SAFE_INTEGER
    requires CountsAlways(eligible, render) && |Visitable(eligible, constraints)| <= max && AllSafe(eligible, constraints)
    ensures var o := CompileOf(eligible, constraints, available, max, render).outcome;
      if SomethingWorks(eligible, constraints, available, render) then o.Settled?
      else if Feasible(eligible, constraints, available) then o.Exhausted? else o.Refused?
  {
    AllocationStarts(eligible, constraints, available);
    WorksIffFits(eligible, constraints, available, render);
    if SomethingWorks(eligible, constraints, available, render) {
      var ids, tokens :| IsPublished(eligible, constraints, available, render, ids, tokens);
      assert Feasible(eligible, constraints, available);
    }
    if Feasible(eligible, constraints, available) {
      var ids, order := AllocatedIds(eligible, constraints, available), AllocatedOrder(eligible, constraints, available);
      SettlesIffSomethingFits(eligible, constraints, available, max, render, ids, order);
      SettleSound(eligible, constraints, available, max, render, ids, order);
      SafeIsPublishable(eligible, constraints, available, render, SettleOf(eligible, constraints, available, max, render, ids, order));
    }
  }

  lemma SafeIsPublishable(eligible: seq<Candidate>, constraints: seq<Constraint>, available: nat, render: set<Text> -> Option<nat>, s: Searched)
    requires AllSafe(eligible, constraints) && IsAnswer(eligible, constraints, available, render, s.outcome)
    ensures Checked(eligible, available, s) == s
  {
    if s.outcome.Settled? { assert MeetsPolicy(eligible, constraints, s.outcome.selection); }
  }

  lemma WorksIffFits(eligible: seq<Candidate>, constraints: seq<Constraint>, available: nat, render: set<Text> -> Option<nat>)
    requires AllSafe(eligible, constraints)
    ensures SomethingWorks(eligible, constraints, available, render) <==> SomethingFits(eligible, constraints, available, render)
  {
    if SomethingFits(eligible, constraints, available, render) {
      var ids :| MeetsPolicy(eligible, constraints, ids) && Fits(available, render, Key(ids, Content(eligible, ids)));
      assert IsPublished(eligible, constraints, available, render, ids, render(ids).value);
    }
    if SomethingWorks(eligible, constraints, available, render) {
      var ids, tokens :| IsPublished(eligible, constraints, available, render, ids, tokens);
      assert Fits(available, render, Key(ids, Content(eligible, ids)));
    }
  }

  /** A safe total makes every sum safe. */
  lemma SafeTotalIsSafe(eligible: seq<Candidate>, constraints: seq<Constraint>)
    requires Total(eligible, Tokens()) <= MAX_SAFE_INTEGER
    ensures AllSafe(eligible, constraints)
  {
    forall ids | MeetsPolicy(eligible, constraints, ids) ensures Content(eligible, ids) <= MAX_SAFE_INTEGER {
      TotalAtMost(eligible, Among(ids, Tokens()), Tokens());
    }
  }

  // ---------- sums that are no safe integers ----------

  /** A rendering that is small for one selection only. */
  function OnlySmall(available: nat, one: set<Text>): set<Text> -> Option<nat> {
    (ids: set<Text>) => Some(if ids == one then 0 else available + 1)
  }

  lemma OnlySmallFits(available: nat, one: set<Text>, ids: set<Text>)
    ensures RendersWithin(OnlySmall(available, one), available, ids) <==> ids == one
  {
  }

  /** With such a rendering the search settles on an allowed selection whose sum is unsafe. */
  lemma UnsafeIsSettled(eligible: seq<Candidate>, constraints: seq<Constraint>, available: nat, max: nat, unsafe: set<Text>, ids: set<Text>, order: seq<Text>)
    requires DistinctIds(eligible) && WellFormedPolicy(constraints) && IsStart(eligible, constraints, available, ids, order)
    requires |Visitable(eligible, constraints)| <= max && available <= MAX_SAFE_INTEGER
    requires MeetsPolicy(eligible, constraints, unsafe) && Content(eligible, unsafe) > MAX_SAFE_INTEGER
    ensures var o := SettleOf(eligible, constraints, available, max, OnlySmall(available, unsafe), ids, order).outcome;
      o.Settled? && o.selection == unsafe
  {
    var render := OnlySmall(available, unsafe);
    OnlySmallFits(available, unsafe, unsafe);
    assert Fits(available, render, Key(unsafe, Content(eligible, unsafe)));
    SettlesIffSomethingFits(eligible, constraints, available, max, render, ids, order);
    SettleSound(eligible, constraints, available, max, render, ids, order);
    var o := SettleOf(eligible, constraints, available, max, render, ids, order).outcome;
    assert IsSettled(eligible, constraints, available, render, o.selection, o.renderedTokens);
    OnlySmallFits(available, unsafe, o.selection);
  }

  /** An allowed selection with an unsafe sum can be reached: for some tokenizer the search settles on it, and
  the compilation ends with an invalid result where the ceiling alone would have ended it as exhausted. */
  lemma UnsafeSumIsReached(eligible: seq<Candidate>, constraints: seq<Constraint>, available: nat, max: nat, unsafe: set<Text>)
    requires DistinctIds(eligible) && WellFormedPolicy(constraints) && available <= MAX_SAFE_INTEGER
    requires Feasible(eligible, constraints, available) && |Visitable(eligible, constraints)| <= max
    requires MeetsPolicy(eligible, constraints, unsafe) && Content(eligible, unsafe) > MAX_SAFE_INTEGER
    ensures CompileOf(eligible, constraints, available, max, OnlySmall(available, unsafe)).outcome == InvalidResult
    ensures CountsAlways(eligible, OnlySmall(available, unsafe))
    ensures !SomethingWorks(eligible, constraints, available, OnlySmall(available, unsafe))
  {
    var render := OnlySmall(available, unsafe);
    AllocationStarts(eligible, constraints, available);
    UnsafeIsSettled(eligible, constraints, available, max, unsafe, AllocatedIds(eligible, constraints, available), AllocatedOrder(eligible, constraints, available));
    forall s, tokens ensures !IsPublished(eligible, constraints, available, render, s, tokens) {
      OnlySmallFits(available, unsafe, s);
    }
  }

  /** A feasible compilation never ends with an invalid result, whatever the tokenizer, if every allowed sum is
  safe; by `UnsafeSumIsReached` only then. */
  lemma SafeSumsAreValid(eligible: seq<Candidate>, constraints: seq<Constraint>, available: nat, max: nat, render: set<Text> -> Option<nat>)
    requires DistinctIds(eligible) && WellFormedPolicy(constraints) && available <= MAX_SAFE_INTEGER && AllSafe(eligible, constraints)
    ensures CompileOf(eligible, constraints, available, max, render).outcome != InvalidResult
  {
    CompileSound(eligible, constraints, available, max, render);
  }

  /** Two optional blocks whose sum is no safe integer. */
  function UnsafePair(): seq<Candidate> {
    [Candidate([97], None, MAX_SAFE_INTEGER, 0.0, false), Candidate([98], None, MAX_SAFE_INTEGER, 0.0, false)]
  }

  lemma UnsafePairFacts()
    ensures DistinctIds(UnsafePair()) && MeetsPolicy(UnsafePair(), [], {}) && Content(UnsafePair(), {}) == 0
    ensures MeetsPolicy(UnsafePair(), [], Ids(UnsafePair())) && Content(UnsafePair(), Ids(UnsafePair())) == 2 * MAX_SAFE_INTEGER
  {
    var pair := UnsafePair();
    assert pair[0].id == [97] && pair[1].id == [98] && [97][0] != [98][0];
    Choices.TotalOfNone(pair, Among({}, Tokens()));
    SelectionFacts(pair, pair);
    assert pair[..1] == [pair[0]] && [pair[0]][..0] == [];
    assert Total(pair, Tokens()) == Total([pair[0]], Tokens()) + pair[1].tokens;
  }

  /** Two optional blocks under a ceiling of ten tokens: the allocator leaves both out, the search settles on
  both together, and only the result check refuses them. */
  lemma UnsafePairIsReached(max: nat)
    requires |Visitable(UnsafePair(), [])| <= max
    ensures CompileOf(UnsafePair(), [], 10, max, OnlySmall(10, Ids(UnsafePair()))).outcome == InvalidResult
  {
    UnsafePairFacts();
    assert Feasible(UnsafePair(), [], 10);
    UnsafeSumIsReached(UnsafePair(), [], 10, max, Ids(UnsafePair()));
  }

  // ---------- the methods ----------

  function NotNamed(id: Text): Candidate -> bool { (c: Candidate) => c.id != id }

  lemma WithoutNamed(eligible: seq<Candidate>, cs: seq<Candidate>, id: Text)
    requires IsSelection(eligible, cs)
    ensures IsSelection(eligible, Keep(cs, NotNamed(id))) && Ids(Keep(cs, NotNamed(id))) == Ids(cs) - {id}
  {
    KeepDistinct(cs, NotNamed(id));
  }

  lemma OneGivenBack(ids: set<Text>, order: seq<Text>, n: nat)
    requires n < |order|
    ensures ids - Given(order, n + 1) == (ids - Given(order, n)) - {order[n]}
  {
    forall id ensures id in Given(order, n + 1) <==> id in Given(order, n) + {order[n]} {
      if id in Given(order, n) { var i :| 0 <= i < n && order[i] == id; }
    }
  }

  /** Gives back the eviction order entry by entry until what is left fits. */
  method GiveBack(eligible: seq<Candidate>, chosen: seq<Candidate>, order: seq<Text>, state: Search) returns (o: Option<Outcome<seq<Candidate>>>)
    requires IsSelection(eligible, chosen) && state.Valid()
    modifies state`measured, state`tokenized
    ensures state.Valid() && (o.Some? && o.value.Settled? ==> IsSelection(eligible, o.value.selection))
    ensures GivingBack(state.available, state.render, Ids(chosen), order, 1) == if o.None? then None else Some(Named(o.value))
  {
    var current := chosen;
    NothingGiven(Ids(chosen), order);
    for i := 0 to |order|
      invariant state.Valid() && IsSelection(eligible, current) && Ids(current) == Ids(chosen) - Given(order, i)
      invariant GivingBack(state.available, state.render, Ids(chosen), order, 1) == GivingBack(state.available, state.render, Ids(chosen), order, i + 1)
    {
      WithoutNamed(eligible, current, order[i]);
      OneGivenBack(Ids(chosen), order, i);
      current := Keep(current, NotNamed(order[i]));
      var tokens := state.Measure(Ids(current));
      if tokens.None? { return Some(Unmeasurable); }
      if tokens.value <= state.available { return Some(Settled(current, tokens.value, Evicted)); }
    }
    return None;
  }

  /** Settles the rendered budget of a selection whose rendering was measured. */
  method Settle(eligible: seq<Candidate>, constraints: seq<Constraint>, chosen: seq<Candidate>, order: seq<Text>, initial: nat, state: Search)
    returns (o: Outcome<seq<Candidate>>)
    requires DistinctIds(eligible) && WellFormedPolicy(constraints) && IsSelection(eligible, chosen)
    requires IsStart(eligible, constraints, state.available, Ids(chosen), order)
    requires state.Valid() && state.visited == {} && state.render(Ids(chosen)) == Some(initial)
    modifies state
    ensures state.Valid() && (o.Settled? ==> IsSelection(eligible, o.selection))
    ensures Searched(Named(o), state.visited)
         == SettleOf(eligible, constraints, state.available, state.maxSelections, state.render, Ids(chosen), order)
    ensures IsSound(eligible, constraints, state.available, state.maxSelections, state.render, Ids(chosen), order, Searched(Named(o), state.visited))
  {
    SettleSound(eligible, constraints, state.available, state.maxSelections, state.render, Ids(chosen), order);
    if initial <= state.available { return Settled(chosen, initial, Initial); }
    var given := GiveBack(eligible, chosen, order, state);
    if given.Some? { return given.value; }
    PrefixAdmitted(eligible, constraints, state.available, Ids(chosen), order, 0);
    o := SearchFallback(eligible, constraints, state);
  }

  /** Recomputes the content of a settled selection before it is published. */
  method VerifyResult(ghost eligible: seq<Candidate>, available: nat, o: Outcome<seq<Candidate>>, ghost visited: set<set<Text>>)
    returns (verified: Outcome<seq<Candidate>>)
    requires DistinctIds(eligible) && (o.Settled? ==> IsSelection(eligible, o.selection))
    ensures Searched(Named(verified), visited) == Checked(eligible, available, Searched(Named(o), visited))
    ensures verified.Settled? ==> verified == o
  {
    if !o.Settled? { return o; }
    SelectionFacts(eligible, o.selection);
    var sum := SumTokens(o.selection);
    if sum.None? || sum.value > available { return InvalidResult; }
    return o;
  }

  /** Renders, settles and verifies an allocation. */
  method Publish(eligible: seq<Candidate>, constraints: seq<Constraint>, available: nat, max: nat, render: set<Text> -> Option<nat>, a: Allocated)
    returns (o: Outcome<seq<Candidate>>, visited: set<set<Text>>)
    requires DistinctIds(eligible) && WellFormedPolicy(constraints) && IsSelection(eligible, Chosen(a.included))
    requires IsStart(eligible, constraints, available, Ids(Chosen(a.included)), a.evictionOrder)
    ensures o.Settled? ==> IsSelection(eligible, o.selection)
    ensures Searched(Named(o), visited) ==
      Checked(eligible, available, SettleOf(eligible, constraints, available, max, render, Ids(Chosen(a.included)), a.evictionOrder))
  {
    var chosen := Chosen(a.included);
    var initial := render(Ids(chosen));
    if initial.None? { return Unmeasurable, {}; }
    var state := new Search(available, max, render, Ids(chosen), initial.value);
    o := Settle(eligible, constraints, chosen, a.evictionOrder, initial.value, state);
    visited := state.visited;
    o := VerifyResult(eligible, available, o, visited);
  }

  lemma ChosenOfInclusions(available: nat, cs: seq<Candidate>, required: nat, reserved: nat)
    ensures Chosen(InclusionsOf(available, cs, required, reserved)) == cs
  {
  }

  /** What an allocation hands on is what the value of the compilation starts from. */
  lemma AllocatedIs(eligible: seq<Candidate>, constraints: seq<Constraint>, available: nat, a: Allocated)
    requires AllocationOf(eligible, constraints, available) == Ok(a)
    ensures RefusalFor(eligible, constraints, available).None?
    ensures Chosen(a.included) == SelectionOf(eligible, constraints, available)
    ensures a.evictionOrder == AllocatedOrder(eligible, constraints, available)
  {
    ChosenOfInclusions(available, SelectionOf(eligible, constraints, available), |RequiredOf(eligible)|,
      |RequiredOf(eligible)| + |UnionOf(eligible, constraints)|);
  }

  lemma RefusedIs(eligible: seq<Candidate>, constraints: seq<Constraint>, available: nat, refusal: Refusal)
    requires AllocationOf(eligible, constraints, available) == Err(refusal)
    ensures RefusalFor(eligible, constraints, available) == Some(refusal)
  {
  }

  /** The allocation, with what the rest of the compilation needs of it. */
  method Begin(eligible: seq<Candidate>, constraints: seq<Constraint>, available: nat) returns (r: Result<Allocated, Refusal>)
    requires DistinctIds(eligible) && WellFormedPolicy(constraints)
    ensures r.Err? ==> RefusalFor(eligible, constraints, available) == Some(r.error)
    ensures r.Ok? ==> RefusalFor(eligible, constraints, available).None? && IsSelection(eligible, Chosen(r.value.included))
    ensures r.Ok? ==> Ids(Chosen(r.value.included)) == AllocatedIds(eligible, constraints, available)
    ensures r.Ok? ==> r.value.evictionOrder == AllocatedOrder(eligible, constraints, available)
  {
    r := Allocate(eligible, constraints, available);
    if r.Ok? {
      AllocatedIs(eligible, constraints, available, r.value);
      SelectionStarts(eligible, constraints, available);
    } else {
      RefusedIs(eligible, constraints, available, r.error);
    }
  }

  /** An allocation and what follows it, or its refusal. */
  method Run(eligible: seq<Candidate>, constraints: seq<Constraint>, available: nat, max: nat, render: set<Text> -> Option<nat>)
    returns (o: Outcome<seq<Candidate>>, visited: set<set<Text>>)
    requires DistinctIds(eligible) && WellFormedPolicy(constraints)
    ensures o.Settled? ==> IsSelection(eligible, o.selection)
    ensures Searched(Named(o), visited) == CompileOf(eligible, constraints, available, max, render)
  {
    AllocationStarts(eligible, constraints, available);
    var allocation := Begin(eligible, constraints, available);
    if allocation.Err? { return Refused(allocation.error), {}; }
    o, visited := Publish(eligible, constraints, available, max, render, allocation.value);
  }

  /** What the value of a compilation tells its caller. */
  lemma CompileMeans(eligible: seq<Candidate>, constraints: seq<Constraint>, available: nat, max: nat, render: set<Text> -> Option<nat>, s: Searched)
    requires DistinctIds(eligible) && WellFormedPolicy(constraints) && available <= MAX_SAFE_INTEGER
    requires s == CompileOf(eligible, constraints, available, max, render)
    ensures IsVerdict(eligible, constraints, available, render, s.outcome) && |s.visited| <= max
    ensures s.outcome.Refused? <==> !Feasible(eligible, constraints, available)
    ensures s.outcome.Settled? ==> IsPreferred(eligible, constraints, available, render, s.outcome)
    ensures s.outcome.SearchLimitExceeded? ==> |s.visited| == max < |Visitable(eligible, constraints)|
    ensures CountsAlways(eligible, render) && |Visitable(eligible, constraints)| <= max && AllSafe(eligible, constraints) ==>
      (s.outcome.Settled? <==> SomethingWorks(eligible, constraints, available, render))
  {
    CompileSound(eligible, constraints, available, max, render);
    LimitNeeds(eligible, constraints, max, s);
    if CountsAlways(eligible, render) && |Visitable(eligible, constraints)| <= max && AllSafe(eligible, constraints) {
      PublishesIffSomethingWorks(eligible, constraints, available, max, render);
    }
  }

  /** Allocates, renders, settles and verifies. */
  method Compile(eligible: seq<Candidate>, constraints: seq<Constraint>, available: nat, max: nat, render: set<Text> -> Option<nat>)
    returns (o: Outcome<seq<Candidate>>, visits: nat, ghost visited: set<set<Text>>)
    requires DistinctIds(eligible) && WellFormedPolicy(constraints) && available <= MAX_SAFE_INTEGER
    ensures Searched(Named(o), visited) == CompileOf(eligible, constraints, available, max, render) && visits == |visited| <= max
    ensures IsVerdict(eligible, constraints, available, render, Named(o))
    ensures o.Refused? <==> !Feasible(eligible, constraints, available)
    ensures o.Settled? ==> IsSelection(eligible, o.selection) && IsPreferred(eligible, constraints, available, render, Named(o))
    ensures o.SearchLimitExceeded? ==> visits == max < |Visitable(eligible, constraints)|
    ensures CountsAlways(eligible, render) && |Visitable(eligible, constraints)| <= max && AllSafe(eligible, constraints) ==>
      (o.Settled? <==> SomethingWorks(eligible, constraints, available, render))
  {
    var sets;
    o, sets := Run(eligible, constraints, available, max, render);
    visits, visited := |sets|, sets;
    CompileMeans(eligible, constraints, available, max, render, Searched(Named(o), visited));
  }
}

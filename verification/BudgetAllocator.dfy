/** The allocator as a whole: it succeeds exactly when some selection satisfies the policy within the
content budget. */
module BudgetAllocator {
  import opened Options
  import opened Results
  import opened Utf16
  import opened Sorting
  import opened Selections
  import opened Choices
  import opened Minimums
  import opened Allocation
  import opened Eviction
  import opened Precedence
  import opened Priorities

  // ---------- required and optional ----------

  function IsRequired(): Candidate -> bool { (c: Candidate) => c.required }

  function IsOptional(): Candidate -> bool { (c: Candidate) => !c.required }

  ghost predicate Splits(eligible: seq<Candidate>, required: seq<Candidate>, optional: seq<Candidate>) {
    && multiset(required) + multiset(optional) == multiset(eligible)
    && (forall c :: c in required ==> c.required)
    && (forall c :: c in optional ==> !c.required)
  }

  lemma SplitMembers(eligible: seq<Candidate>, required: seq<Candidate>, optional: seq<Candidate>)
    requires DistinctIds(eligible) && Splits(eligible, required, optional)
    ensures DistinctIds(required + optional) && IsSelection(eligible, required) && IsSelection(eligible, optional)
    ensures forall c :: c in eligible <==> c in required + optional
  {
    var all := required + optional;
    RearrangedDistinct(eligible, all);
    forall i, j | 0 <= i < j < |required| ensures required[i].id != required[j].id {
      assert all[i] == required[i] && all[j] == required[j];
    }
    forall i, j | 0 <= i < j < |optional| ensures optional[i].id != optional[j].id {
      assert all[|required| + i] == optional[i] && all[|required| + j] == optional[j];
    }
    assert forall c :: c in required || c in optional ==> c in all;
  }

  /** A selection with every required candidate is the required ones and some optional ones. */
  lemma SplitTotal(eligible: seq<Candidate>, required: seq<Candidate>, optional: seq<Candidate>, ids: set<Text>, w: Candidate -> nat)
    requires Splits(eligible, required, optional) && forall c :: c in required ==> c.id in ids
    ensures Total(eligible, Among(ids, w)) == Total(required, w) + Total(optional, Among(ids, w))
  {
    assert multiset(required + optional) == multiset(eligible);
    TotalPermutes(eligible, required + optional, Among(ids, w));
    TotalConcat(required, optional, Among(ids, w));
    TotalSame(required, Among(ids, w), w);
  }

  /** A selection the policy allows makes up for every shortfall. */
  lemma AllowedIsCountable(eligible: seq<Candidate>, ks: seq<Constraint>, required: seq<Candidate>, optional: seq<Candidate>, ids: set<Text>, i: nat)
    requires DistinctIds(eligible) && Splits(eligible, required, optional) && MeetsPolicy(eligible, ks, ids) && i < |ks|
    ensures Needed(ks[i], required) <= Total(optional, Among(ids, OfCategory(ks[i].category))) <= Count(optional, ks[i].category)
    ensures ks[i].maxBlocks.Some? ==> Count(required, ks[i].category) <= ks[i].maxBlocks.value
  {
    SplitMembers(eligible, required, optional);
    forall c | c in required ensures c.id in ids { assert c in eligible; }
    SplitTotal(eligible, required, optional, ids, OfCategory(ks[i].category));
    CountIsTotal(required, ks[i].category);
    CountIsTotal(optional, ks[i].category);
    TotalAtMost(optional, Among(ids, OfCategory(ks[i].category)), OfCategory(ks[i].category));
    assert Meets(ks[i], Blocks(eligible, ids, ks[i].category));
  }

  /** Nothing the policy allows costs less than the required candidates and the cheapest union. */
  lemma NothingIsCheaper(eligible: seq<Candidate>, ks: seq<Constraint>, required: seq<Candidate>, optional: seq<Candidate>, ids: set<Text>)
    requires DistinctIds(eligible) && DistinctCategories(ks) && Splits(eligible, required, optional) && MeetsPolicy(eligible, ks, ids)
    ensures Countable(required, optional, ks)
    ensures Total(required, Tokens()) + Total(Cheapest(required, optional, ks), Tokens()) <= Content(eligible, ids)
  {
    SplitMembers(eligible, required, optional);
    forall i | 0 <= i < |ks|
      ensures Needed(ks[i], required) <= Total(optional, Among(ids, OfCategory(ks[i].category))) <= Count(optional, ks[i].category)
      ensures ks[i].maxBlocks.Some? ==> Count(required, ks[i].category) <= ks[i].maxBlocks.value
    {
      AllowedIsCountable(eligible, ks, required, optional, ids, i);
    }
    CheapestCostsLeast(required, optional, ks, ids);
    TotalAtMost(optional, Where(IsOfAny(Categories(ks)), Among(ids, Tokens())), Among(ids, Tokens()));
    forall c | c in required ensures c.id in ids { assert c in eligible; }
    SplitTotal(eligible, required, optional, ids, Tokens());
  }

  // ---------- the selection keeps the policy ----------

  ghost predicate CountsMeet(ks: seq<Constraint>, cs: seq<Candidate>) {
    forall i :: 0 <= i < |ks| ==> Meets(ks[i], Count(cs, ks[i].category))
  }

  /** The required candidates with the union satisfy every constraint. */
  lemma BaseMeets(required: seq<Candidate>, optional: seq<Candidate>, ks: seq<Constraint>)
    requires DistinctIds(optional) && WellFormedPolicy(ks) && Countable(required, optional, ks)
    ensures CountsMeet(ks, required + Cheapest(required, optional, ks))
  {
    forall i | 0 <= i < |ks| ensures Meets(ks[i], Count(required + Cheapest(required, optional, ks), ks[i].category)) {
      CheapestCount(required, optional, ks, i);
      CountConcat(required, Cheapest(required, optional, ks), ks[i].category);
    }
  }

  lemma AdmitKeeps(ks: seq<Constraint>, available: nat, chosen: seq<Candidate>, c: Candidate)
    requires DistinctCategories(ks) && CountsMeet(ks, chosen) && Admits(ks, available, chosen, c)
    ensures CountsMeet(ks, chosen + [c])
  {
    forall i | 0 <= i < |ks| ensures Meets(ks[i], Count(chosen + [c], ks[i].category)) {
      assert Meets(ks[i], Count(chosen, ks[i].category));
      CountAdd(chosen, c, ks[i].category);
      GoverningIs(ks, i);
    }
  }

  /** The greedy choice never leaves the policy, spends no more than it has, and takes nothing back. */
  lemma {:induction false} GreedyKeeps(ks: seq<Constraint>, available: nat, chosen: seq<Candidate>, order: seq<Candidate>)
    requires DistinctCategories(ks) && CountsMeet(ks, chosen) && Total(chosen, Tokens()) <= available
    ensures CountsMeet(ks, Greedy(ks, available, chosen, order)) && chosen <= Greedy(ks, available, chosen, order)
    ensures Total(Greedy(ks, available, chosen, order), Tokens()) <= available
  {
    if order != [] {
      var n := |order| - 1;
      GreedyKeeps(ks, available, chosen, order[..n]);
      var before := Greedy(ks, available, chosen, order[..n]);
      if Admits(ks, available, before, order[n]) {
        AdmitKeeps(ks, available, before, order[n]);
        TotalAdd(before, order[n], Tokens());
      }
    }
  }

  // ---------- the same constraints in category order ----------

  ghost predicate SameConstraints(ks: seq<Constraint>, js: seq<Constraint>) { forall k :: k in ks <==> k in js }

  function CategoryOf(k: Constraint): Text { k.category }

  lemma SortedConstraints(ks: seq<Constraint>)
    requires WellFormedPolicy(ks)
    ensures WellFormedPolicy(Sort(CategoryAtMost, ks)) && SameConstraints(ks, Sort(CategoryAtMost, ks))
  {
    var js := Sort(CategoryAtMost, ks);
    SortPermutes(CategoryAtMost, ks);
    SameElements(ks, js);
    assert DistinctBy(CategoryOf, ks);
    DistinctPermutes(CategoryOf, ks, js);
    assert forall i, j :: 0 <= i < j < |js| ==> CategoryOf(js[i]) != CategoryOf(js[j]);
    forall i | 0 <= i < |js| && js[i].minBlocks.Some? && js[i].maxBlocks.Some? ensures js[i].minBlocks.value <= js[i].maxBlocks.value {
      assert js[i] in ks;
    }
  }

  lemma PolicyFollows(eligible: seq<Candidate>, ks: seq<Constraint>, js: seq<Constraint>, ids: set<Text>)
    requires SameConstraints(ks, js) && MeetsPolicy(eligible, ks, ids)
    ensures MeetsPolicy(eligible, js, ids)
  {
    forall i | 0 <= i < |js| ensures Meets(js[i], Blocks(eligible, ids, js[i].category)) {
      assert js[i] in ks;
      var j :| 0 <= j < |ks| && ks[j] == js[i];
    }
  }

  lemma CountsFollow(ks: seq<Constraint>, js: seq<Constraint>, cs: seq<Candidate>)
    requires SameConstraints(ks, js) && CountsMeet(ks, cs)
    ensures CountsMeet(js, cs)
  {
    forall i | 0 <= i < |js| ensures Meets(js[i], Count(cs, js[i].category)) {
      assert js[i] in ks;
      var j :| 0 <= j < |ks| && ks[j] == js[i];
    }
  }

  /** A list of candidates whose counts satisfy the constraints is a selection the policy allows. */
  lemma CountsAllow(eligible: seq<Candidate>, ks: seq<Constraint>, cs: seq<Candidate>)
    requires DistinctIds(eligible) && IsSelection(eligible, cs) && CountsMeet(ks, cs)
    requires forall c :: c in eligible && c.required ==> c in cs
    ensures MeetsPolicy(eligible, ks, Ids(cs)) && Content(eligible, Ids(cs)) == Total(cs, Tokens())
  {
    SelectionFacts(eligible, cs);
    forall i | 0 <= i < |ks| ensures Meets(ks[i], Blocks(eligible, Ids(cs), ks[i].category)) {
      assert Meets(ks[i], Count(cs, ks[i].category));
    }
  }

  // ---------- what is allocated, in order ----------

  function RequiredOf(eligible: seq<Candidate>): seq<Candidate> { Sort(IdAtMost, Keep(Sort(IdAtMost, eligible), IsRequired())) }

  function OptionalOf(eligible: seq<Candidate>): seq<Candidate> { Keep(Sort(IdAtMost, eligible), IsOptional()) }

  function UnionOf(eligible: seq<Candidate>, constraints: seq<Constraint>): seq<Candidate> {
    Cheapest(RequiredOf(eligible), OptionalOf(eligible), Sort(CategoryAtMost, constraints))
  }

  function NotIn(cs: seq<Candidate>): Candidate -> bool { (c: Candidate) => c !in cs }

  function RestOf(optional: seq<Candidate>, reserved: seq<Candidate>): seq<Candidate> {
    Sort(ScoreAtMost, Keep(optional, NotIn(reserved)))
  }

  /** The candidates the allocator selects, in the order it decides them. */
  function SelectionOf(eligible: seq<Candidate>, constraints: seq<Constraint>, available: nat): seq<Candidate> {
    var union := UnionOf(eligible, constraints);
    Greedy(constraints, available, RequiredOf(eligible) + union, RestOf(OptionalOf(eligible), union))
  }

  /** The candidates it leaves out, with reasons and remainders. */
  function ExclusionsOf(eligible: seq<Candidate>, constraints: seq<Constraint>, available: nat): seq<Exclusion> {
    var union := UnionOf(eligible, constraints);
    Exclusions(constraints, available, RequiredOf(eligible) + union, RestOf(OptionalOf(eligible), union))
  }

  lemma SplitOf(eligible: seq<Candidate>)
    ensures Splits(eligible, RequiredOf(eligible), OptionalOf(eligible))
  {
    var sorted := Sort(IdAtMost, eligible);
    SortPermutes(IdAtMost, eligible);
    SortPermutes(IdAtMost, Keep(sorted, IsRequired()));
    SameElements(Keep(sorted, IsRequired()), RequiredOf(eligible));
    KeepPartitions(sorted, IsRequired(), IsOptional());
  }

  lemma RestCompletes(optional: seq<Candidate>, reserved: seq<Candidate>)
    requires DistinctIds(optional) && IsSelection(optional, reserved)
    ensures multiset(reserved) + multiset(RestOf(optional, reserved)) == multiset(optional)
  {
    var picked := (c: Candidate) => c in reserved;
    KeepPartitions(optional, picked, NotIn(reserved));
    KeepDistinct(optional, picked);
    SameMembersPermute(reserved, Keep(optional, picked));
    SortPermutes(ScoreAtMost, Keep(optional, NotIn(reserved)));
  }

  // ---------- the allocation ----------

  /** The union, category by category. */
  method CategoryMinimums(required: seq<Candidate>, optional: seq<Candidate>, ks: seq<Constraint>) returns (union: seq<Candidate>)
    ensures union == Cheapest(required, optional, ks)
  {
    union := [];
    for i := 0 to |ks|
      invariant union == Cheapest(required, optional, ks[..i])
    {
      assert ks[..i + 1][..i] == ks[..i];
      var needed := Needed(ks[i], required);
      union := union + Prefix(Preferred(optional, ks[i].category), needed);
    }
    assert ks[..|ks|] == ks;
  }

  /** The included candidates that were not required. */
  function Surplus(included: seq<Inclusion>): seq<Candidate> {
    if included == [] then []
    else
      var last := included[|included| - 1];
      Surplus(included[..|included| - 1]) + if last.reason == IncludedRequired then [] else [last.candidate]
  }

  lemma {:induction false} NoSurplus(included: seq<Inclusion>)
    requires forall i :: 0 <= i < |included| ==> included[i].reason == IncludedRequired
    ensures Surplus(included) == []
  {
    if included != [] { NoSurplus(included[..|included| - 1]); }
  }

  lemma ChosenSplits(included: seq<Inclusion>, n: nat)
    requires n < |included|
    ensures Chosen(included)[n..] == Chosen(included[..|included| - 1])[n..] + [included[|included| - 1].candidate]
  {
  }

  lemma {:induction false} SurplusIs(included: seq<Inclusion>, n: nat)
    requires n <= |included| && forall i :: 0 <= i < |included| ==> (included[i].reason == IncludedRequired <==> i < n)
    ensures Surplus(included) == Chosen(included)[n..]
  {
    if n == |included| {
      NoSurplus(included);
    } else {
      SurplusIs(included[..|included| - 1], n);
      ChosenSplits(included, n);
    }
  }

  /** What a successful allocation promises. */
  ghost predicate IsAllocation(eligible: seq<Candidate>, constraints: seq<Constraint>, available: nat, a: Allocated) {
    var chosen := Chosen(a.included);
    && chosen == SelectionOf(eligible, constraints, available)
    && MeetsPolicy(eligible, constraints, Ids(chosen))
    && Content(eligible, Ids(chosen)) + a.unallocated == available
    && Chained(available, a.included, a.unallocated)
    && Decided(a.included, a.excluded) == multiset(eligible)
    && AllJustified(constraints, chosen, a.unallocated, a.excluded)
    && a.excluded == ExclusionsOf(eligible, constraints, available)
    && IsEvictionOrder(eligible, constraints, chosen, a.evictionOrder)
  }

  /** The optional candidates of a selection that are given back, in order. */
  ghost function EvictedOf(eligible: seq<Candidate>, constraints: seq<Constraint>, chosen: seq<Candidate>): seq<Candidate> {
    EvictedFrom(eligible, constraints, Ids(chosen), Keep(chosen, IsOptional()))
  }

  /** The identifiers of different optional candidates, from the lowest score and then the largest
  identifier, each the worst that could go at its turn; every prefix may go, and after all of it nothing else. */
  ghost predicate IsEvictionOrder(eligible: seq<Candidate>, constraints: seq<Constraint>, chosen: seq<Candidate>, order: seq<Text>) {
    var given := EvictedOf(eligible, constraints, chosen);
    && order == IdList(given) && DistinctIds(given) && SortedBy(GivenBackFirst, given)
    && GivesTheWorst(eligible, constraints, Ids(chosen), Keep(chosen, IsOptional()), given)
    && (forall c :: c in given ==> c in chosen && !c.required)
    && EveryPrefixSafe(eligible, constraints, Ids(chosen), order)
    && forall c :: c in chosen && !c.required ==> c.id in order || IsProtected(eligible, constraints, Remaining(Ids(chosen), order), c)
  }

  /** Some selection satisfies the policy within the content budget. */
  ghost predicate Feasible(eligible: seq<Candidate>, constraints: seq<Constraint>, available: nat) {
    exists ids :: MeetsPolicy(eligible, constraints, ids) && Content(eligible, ids) <= available
  }

  lemma FeasibleIsAffordable(eligible: seq<Candidate>, constraints: seq<Constraint>, available: nat)
    requires DistinctIds(eligible) && WellFormedPolicy(constraints) && Feasible(eligible, constraints, available)
    ensures Countable(RequiredOf(eligible), OptionalOf(eligible), Sort(CategoryAtMost, constraints))
    ensures Total(RequiredOf(eligible), Tokens()) + Total(UnionOf(eligible, constraints), Tokens()) <= available
  {
    var ids :| MeetsPolicy(eligible, constraints, ids) && Content(eligible, ids) <= available;
    var ks := Sort(CategoryAtMost, constraints);
    SortedConstraints(constraints);
    PolicyFollows(eligible, constraints, ks, ids);
    SplitOf(eligible);
    NothingIsCheaper(eligible, ks, RequiredOf(eligible), OptionalOf(eligible), ids);
  }

  /** The reserved part satisfies the policy and leaves the rest of the pool to decide. */
  lemma ReservedFacts(eligible: seq<Candidate>, constraints: seq<Constraint>)
    requires DistinctIds(eligible) && WellFormedPolicy(constraints)
    requires Countable(RequiredOf(eligible), OptionalOf(eligible), Sort(CategoryAtMost, constraints))
    ensures CountsMeet(constraints, RequiredOf(eligible) + UnionOf(eligible, constraints))
    ensures multiset(RequiredOf(eligible)) + multiset(UnionOf(eligible, constraints))
          + multiset(RestOf(OptionalOf(eligible), UnionOf(eligible, constraints))) == multiset(eligible)
  {
    var required, optional, ks := RequiredOf(eligible), OptionalOf(eligible), Sort(CategoryAtMost, constraints);
    SplitOf(eligible);
    SplitMembers(eligible, required, optional);
    SortedConstraints(constraints);
    CheapestIsSelection(required, optional, ks);
    RestCompletes(optional, UnionOf(eligible, constraints));
    BaseMeets(required, optional, ks);
    CountsFollow(ks, constraints, required + UnionOf(eligible, constraints));
  }

  /** The selection begins with the required candidates and keeps counts and budget. */
  lemma SelectionCounts(eligible: seq<Candidate>, constraints: seq<Constraint>, available: nat)
    requires DistinctIds(eligible) && WellFormedPolicy(constraints)
    requires Countable(RequiredOf(eligible), OptionalOf(eligible), Sort(CategoryAtMost, constraints))
    requires Total(RequiredOf(eligible) + UnionOf(eligible, constraints), Tokens()) <= available
    ensures RequiredOf(eligible) <= SelectionOf(eligible, constraints, available)
    ensures CountsMeet(constraints, SelectionOf(eligible, constraints, available))
    ensures Total(SelectionOf(eligible, constraints, available), Tokens()) <= available
  {
    var start := RequiredOf(eligible) + UnionOf(eligible, constraints);
    ReservedFacts(eligible, constraints);
    GreedyKeeps(constraints, available, start, RestOf(OptionalOf(eligible), UnionOf(eligible, constraints)));
    assert RequiredOf(eligible) <= start <= SelectionOf(eligible, constraints, available);
  }

  /** A selection that begins with the required candidates holds them all, and then only others. */
  lemma RequiredFirst(eligible: seq<Candidate>, chosen: seq<Candidate>)
    requires DistinctIds(eligible) && IsSelection(eligible, chosen) && RequiredOf(eligible) <= chosen
    ensures forall c :: c in eligible && c.required ==> c in chosen
    ensures forall c :: c in chosen[|RequiredOf(eligible)|..] ==> !c.required
  {
    var required := RequiredOf(eligible);
    SplitOf(eligible);
    SplitMembers(eligible, required, OptionalOf(eligible));
    forall c | c in eligible && c.required ensures c in required && c in chosen { assert c in required + OptionalOf(eligible); }
    forall c | c in chosen[|required|..] ensures !c.required { OnlyOnce(eligible, chosen, required, c); }
  }

  /** What the selected and the left out candidates amount to. */
  lemma FinishedFacts(eligible: seq<Candidate>, constraints: seq<Constraint>, available: nat, chosen: seq<Candidate>, dropped: seq<Candidate>)
    requires DistinctIds(eligible) && WellFormedPolicy(constraints)
    requires Countable(RequiredOf(eligible), OptionalOf(eligible), Sort(CategoryAtMost, constraints))
    requires Total(RequiredOf(eligible) + UnionOf(eligible, constraints), Tokens()) <= available
    requires chosen == SelectionOf(eligible, constraints, available) && multiset(chosen) + multiset(dropped) == multiset(eligible)
    ensures RequiredOf(eligible) <= chosen && IsSelection(eligible, chosen)
    ensures forall c :: c in chosen[|RequiredOf(eligible)|..] ==> !c.required
    ensures MeetsPolicy(eligible, constraints, Ids(chosen))
    ensures Content(eligible, Ids(chosen)) == Total(chosen, Tokens()) <= available
  {
    SelectionCounts(eligible, constraints, available);
    assert multiset(chosen + dropped) == multiset(eligible);
    ChosenIsSelection(eligible, chosen, dropped);
    RequiredFirst(eligible, chosen);
    CountsAllow(eligible, constraints, chosen);
  }

  lemma ChosenIsSelection(eligible: seq<Candidate>, chosen: seq<Candidate>, dropped: seq<Candidate>)
    requires DistinctIds(eligible) && multiset(chosen + dropped) == multiset(eligible)
    ensures IsSelection(eligible, chosen)
  {
    var all := chosen + dropped;
    RearrangedDistinct(eligible, all);
    assert forall i :: 0 <= i < |chosen| ==> all[i] == chosen[i];
    assert forall c :: c in chosen ==> c in all;
  }

  /** After the required candidates come only others. */
  lemma OnlyOnce(eligible: seq<Candidate>, chosen: seq<Candidate>, required: seq<Candidate>, c: Candidate)
    requires DistinctIds(chosen) && required <= chosen && c in chosen[|required|..]
    requires IsSelection(eligible, chosen) && forall x :: x in eligible && x.required ==> x in required
    ensures !c.required
  {
    var i :| |required| <= i < |chosen| && chosen[i] == c;
    forall j | 0 <= j < |required| ensures required[j] != c {
      assert chosen[j] == required[j] && chosen[j].id != chosen[i].id;
    }
    assert c in eligible;
  }

  function ReasonAt(i: nat, required: nat, reserved: nat): IncludedReason {
    if i < required then IncludedRequired else if i < reserved then IncludedCategoryMinimum else IncludedScoreOrder
  }

  /** The three runs of reasons: required, minimums, score order. */
  ghost predicate InRuns(included: seq<Inclusion>, required: nat, reserved: nat) {
    && required <= reserved <= |included|
    && forall i :: 0 <= i < |included| ==> included[i].reason == ReasonAt(i, required, reserved)
  }

  lemma RunsContinue(first: seq<Inclusion>, second: seq<Inclusion>, third: seq<Inclusion>)
    requires Continues([], first, IncludedRequired) && Continues(first, second, IncludedCategoryMinimum)
    requires Continues(second, third, IncludedScoreOrder)
    ensures InRuns(third, |first|, |second|)
  {
    forall i | 0 <= i < |third| ensures third[i].reason == ReasonAt(i, |first|, |second|) {
      if i < |first| {
        assert third[i] == second[i] == first[i];
      } else if i < |second| {
        assert third[i] == second[i];
      }
    }
  }

  lemma SelectedCounts(eligible: seq<Candidate>, ks: seq<Constraint>, selected: map<Text, nat>, chosen: seq<Candidate>)
    requires DistinctIds(eligible) && IsSelection(eligible, chosen) && CountsAll(selected, chosen)
    ensures CountsLeft(eligible, ks, selected, Ids(chosen))
  {
    SelectionFacts(eligible, chosen);
  }

  /** Gives the finished selection its eviction order. */
  method Finish(eligible: seq<Candidate>, constraints: seq<Constraint>, state: Allocator, ghost reserved: nat) returns (a: Allocated)
    requires DistinctIds(eligible) && WellFormedPolicy(constraints)
    requires Countable(RequiredOf(eligible), OptionalOf(eligible), Sort(CategoryAtMost, constraints))
    requires Total(RequiredOf(eligible) + UnionOf(eligible, constraints), Tokens()) <= state.available
    requires state.Valid() && state.Settled(multiset(eligible)) && state.constraints == constraints
    requires Chosen(state.included) == SelectionOf(eligible, constraints, state.available)
    requires state.excluded == ExclusionsOf(eligible, constraints, state.available)
    requires InRuns(state.included, |RequiredOf(eligible)|, reserved)
    ensures IsAllocation(eligible, constraints, state.available, a) && a.included == state.included
  {
    ghost var chosen, n := Chosen(state.included), |RequiredOf(eligible)|;
    FinishedFacts(eligible, constraints, state.available, chosen, Dropped(state.excluded));
    SurplusIs(state.included, n);
    SurplusIsSelection(eligible, chosen, n);
    SelectedCounts(eligible, constraints, state.selected, chosen);
    var order, given := EvictionOrder(eligible, constraints, Surplus(state.included), state.selected, Ids(chosen));
    SurplusHoldsOptional(eligible, chosen);
    OrderFacts(eligible, constraints, chosen, n, order, given);
    a := Allocated(state.included, state.excluded, state.remaining, order);
  }

  lemma SurplusIsSelection(eligible: seq<Candidate>, chosen: seq<Candidate>, n: nat)
    requires IsSelection(eligible, chosen) && n <= |chosen|
    ensures IsSelection(eligible, chosen[n..]) && forall c :: c in chosen[n..] ==> c.id in Ids(chosen)
  {
    var surplus := chosen[n..];
    assert forall c :: c in surplus ==> c in chosen;
    forall i, j | 0 <= i < j < |surplus| ensures surplus[i].id != surplus[j].id {
      assert surplus[i] == chosen[n + i] && surplus[j] == chosen[n + j];
    }
  }

  lemma OrderFacts(eligible: seq<Candidate>, constraints: seq<Constraint>, chosen: seq<Candidate>, n: nat, order: seq<Text>, given: seq<Candidate>)
    requires DistinctIds(chosen) && n <= |chosen| && EveryPrefixSafe(eligible, constraints, Ids(chosen), order)
    requires forall c :: c in chosen[n..] ==> !c.required
    requires forall c :: c in chosen && !c.required ==> c in chosen[n..]
    requires order == IdList(given) && given == EvictedFrom(eligible, constraints, Ids(chosen), chosen[n..])
    requires DistinctIds(given) && SortedBy(GivenBackFirst, given) && forall c :: c in given ==> c in chosen[n..]
    requires GivesTheWorst(eligible, constraints, Ids(chosen), chosen[n..], given)
    requires forall c :: c in chosen[n..] ==> c.id in order || IsProtected(eligible, constraints, Remaining(Ids(chosen), order), c)
    ensures IsEvictionOrder(eligible, constraints, chosen, order)
  {
    SameSurplus(chosen, n);
    assert forall c :: c in chosen[n..] ==> c in chosen;
  }

  lemma SurplusPermutes(chosen: seq<Candidate>, n: nat)
    requires DistinctIds(chosen) && n <= |chosen|
    requires forall c :: c in chosen[n..] ==> !c.required
    requires forall c :: c in chosen && !c.required ==> c in chosen[n..]
    ensures DistinctIds(chosen[n..]) && multiset(chosen[n..]) == multiset(Keep(chosen, IsOptional()))
  {
    SurplusIsSelection(chosen, chosen, n);
    KeepDistinct(chosen, IsOptional());
    assert forall c :: c in chosen[n..] ==> c in chosen;
    SameMembersPermute(chosen[n..], Keep(chosen, IsOptional()));
  }

  /** The selected optional candidates sort alike, however they are listed. */
  lemma SameSurplus(chosen: seq<Candidate>, n: nat)
    requires DistinctIds(chosen) && n <= |chosen|
    requires forall c :: c in chosen[n..] ==> !c.required
    requires forall c :: c in chosen && !c.required ==> c in chosen[n..]
    ensures Sort(EvictAtMost, chosen[n..]) == Sort(EvictAtMost, Keep(chosen, IsOptional()))
  {
    SurplusPermutes(chosen, n);
    SameEvictSort(chosen[n..], Keep(chosen, IsOptional()));
  }

  lemma SameEvictSort(a: seq<Candidate>, b: seq<Candidate>)
    requires DistinctIds(a) && multiset(a) == multiset(b)
    ensures Sort(EvictAtMost, a) == Sort(EvictAtMost, b)
  {
    EvictUntied(a);
    EvictIsPreorder();
    SortOrderIndependent(EvictAtMost, a, b);
  }

  lemma EvictUntied(cs: seq<Candidate>)
    requires DistinctIds(cs)
    ensures Untied(EvictAtMost, cs)
  {
    AtMostIsTotalOrder();
    forall x, y | x in cs && y in cs && EvictAtMost(x, y) && EvictAtMost(y, x) ensures x == y { SameIdSame(cs, x, y); }
  }

  lemma SurplusHoldsOptional(eligible: seq<Candidate>, chosen: seq<Candidate>)
    requires RequiredOf(eligible) <= chosen
    ensures forall c :: c in chosen && !c.required ==> c in chosen[|RequiredOf(eligible)|..]
  {
    SplitOf(eligible);
    var n := |RequiredOf(eligible)|;
    forall j | 0 <= j < n ensures chosen[j].required {
      assert chosen[j] == RequiredOf(eligible)[j];
    }
    forall c | c in chosen && !c.required ensures c in chosen[n..] {
      var i :| 0 <= i < |chosen| && chosen[i] == c;
      assert chosen[n..][i - n] == c;
    }
  }

  lemma AllocationIsFeasible(eligible: seq<Candidate>, constraints: seq<Constraint>, available: nat, a: Allocated)
    requires IsAllocation(eligible, constraints, available, a)
    ensures Feasible(eligible, constraints, available)
  {
    assert MeetsPolicy(eligible, constraints, Ids(Chosen(a.included)));
  }

  /** Which refusal, if any: impossible counts, then the first required candidate that does not fit, then
  the first reserved one. */
  function RefusalOf(required: seq<Candidate>, optional: seq<Candidate>, ks: seq<Constraint>, available: nat): Option<Refusal> {
    var issues := AllIssues(required, optional, ks);
    var first := Misfit(required, available);
    var second := Misfit(Cheapest(required, optional, ks), Rest(available, required));
    if issues != [] then Some(CountsImpossible(issues))
    else if first.Some? then Some(RequiredExceedsBudget(first.value))
    else if second.Some? then Some(MinimumsExceedBudget(second.value))
    else None
  }

  /** Includes the required candidates and reserves the minimums: this succeeds exactly when their sum is
  available. */
  method Reserve(required: seq<Candidate>, optional: seq<Candidate>, ks: seq<Constraint>, state: Allocator) returns (refusal: Option<Refusal>, ghost first: seq<Inclusion>)
    requires state.Valid() && state.included == [] && state.excluded == [] && state.remaining == state.available
    modifies state
    ensures state.Valid() && state.excluded == []
    ensures refusal.None? <==> Total(required, Tokens()) + Total(Cheapest(required, optional, ks), Tokens()) <= state.available
    ensures AllIssues(required, optional, ks) == [] ==> refusal == RefusalOf(required, optional, ks, state.available)
    ensures refusal.None? ==> Chosen(state.included) == required + Cheapest(required, optional, ks)
    ensures refusal.None? ==> |first| == |required| && Continues([], first, IncludedRequired) && Continues(first, state.included, IncludedCategoryMinimum)
  {
    var misfit := state.IncludeAll(required, IncludedRequired);
    first := state.included;
    if misfit.Some? { return Some(RequiredExceedsBudget(misfit.value)), first; }
    assert Chosen(first) == required;
    assert state.remaining == Rest(state.available, required);
    var union := CategoryMinimums(required, optional, ks);
    misfit := state.IncludeAll(union, IncludedCategoryMinimum);
    refusal := if misfit.Some? then Some(MinimumsExceedBudget(misfit.value)) else None;
  }

  lemma DecidedStart(included: seq<Inclusion>, required: seq<Candidate>, union: seq<Candidate>)
    requires Chosen(included) == required + union
    ensures Decided(included, []) == multiset(required) + multiset(union)
  {
  }

  /** The required candidates and the minimums are in. */
  ghost predicate IsReserved(eligible: seq<Candidate>, constraints: seq<Constraint>, included: seq<Inclusion>, first: seq<Inclusion>) {
    && Chosen(included) == RequiredOf(eligible) + UnionOf(eligible, constraints)
    && |first| == |RequiredOf(eligible)| && Continues([], first, IncludedRequired) && Continues(first, included, IncludedCategoryMinimum)
  }

  /** Selects the rest by score. */
  method SelectRest(eligible: seq<Candidate>, constraints: seq<Constraint>, state: Allocator, ghost first: seq<Inclusion>)
    requires state.Valid() && state.excluded == [] && state.constraints == constraints
    requires IsReserved(eligible, constraints, state.included, first)
    modifies state
    ensures state.Valid() && Chosen(state.included) == SelectionOf(eligible, constraints, state.available)
    ensures state.excluded == ExclusionsOf(eligible, constraints, state.available)
    ensures state.Settled(multiset(RequiredOf(eligible)) + multiset(UnionOf(eligible, constraints))
                        + multiset(RestOf(OptionalOf(eligible), UnionOf(eligible, constraints))))
    ensures InRuns(state.included, |RequiredOf(eligible)|, |RequiredOf(eligible)| + |UnionOf(eligible, constraints)|)
  {
    ghost var second := state.included;
    var union := UnionOf(eligible, constraints);
    DecidedStart(second, RequiredOf(eligible), union);
    assert |second| == |Chosen(second)| == |RequiredOf(eligible)| + |union|;
    state.AllocateOptional(RestOf(OptionalOf(eligible), union), multiset(RequiredOf(eligible)) + multiset(union));
    RunsContinue(first, second, state.included);
  }

  // ---------- the allocation as a value ----------

  /** The decisions for candidates in order, with the budget around each. */
  function InclusionsOf(available: nat, cs: seq<Candidate>, required: nat, reserved: nat): (included: seq<Inclusion>)
    ensures |included| == |cs|
  {
    seq(|cs|, i requires 0 <= i < |cs| =>
      Inclusion(cs[i], ReasonAt(i, required, reserved), Rest(available, cs[..i]), Rest(available, cs[..i + 1])))
  }

  lemma {:induction false} ChainedLeft(available: nat, included: seq<Inclusion>, remaining: nat, i: nat)
    requires Chained(available, included, remaining) && i <= |included|
    ensures Total(Chosen(included)[..i], Tokens()) + Left(available, included, i) == available
  {
    if i > 0 {
      ChainedLeft(available, included, remaining, i - 1);
      OneMoreTotal(Chosen(included), i - 1);
      assert Left(available, included, i - 1) == included[i - 1].before;
    }
  }

  /** The chain of decisions leaves nothing open but the candidates and the runs. */
  lemma ChainDetermines(available: nat, included: seq<Inclusion>, remaining: nat, required: nat, reserved: nat)
    requires Chained(available, included, remaining) && InRuns(included, required, reserved)
    ensures included == InclusionsOf(available, Chosen(included), required, reserved)
    ensures remaining == Rest(available, Chosen(included))
  {
    var cs := Chosen(included);
    forall i | 0 <= i < |included| ensures included[i] == InclusionsOf(available, cs, required, reserved)[i] {
      ChainedLeft(available, included, remaining, i);
      ChainedLeft(available, included, remaining, i + 1);
      assert Left(available, included, i) == included[i].before;
    }
    ChainedLeft(available, included, remaining, |included|);
    assert cs[..|cs|] == cs;
  }

  /** An outcome put together from its parts. */
  function Assembled(refusal: Option<Refusal>, available: nat, chosen: seq<Candidate>, required: nat, reserved: nat,
      excluded: seq<Exclusion>, evicted: seq<Candidate>): Result<Allocated, Refusal>
  {
    if refusal.Some? then Err(refusal.value)
    else Ok(Allocated(InclusionsOf(available, chosen, required, required + reserved), excluded, Rest(available, chosen), IdList(evicted)))
  }

  /** The refusal an allocation ends with, if any. */
  function RefusalFor(eligible: seq<Candidate>, constraints: seq<Constraint>, available: nat): Option<Refusal> {
    RefusalOf(RequiredOf(eligible), OptionalOf(eligible), Sort(CategoryAtMost, constraints), available)
  }

  /** The outcome of an allocation, decision by decision. */
  ghost function AllocationOf(eligible: seq<Candidate>, constraints: seq<Constraint>, available: nat): Result<Allocated, Refusal> {
    Assembled(RefusalFor(eligible, constraints, available), available, SelectionOf(eligible, constraints, available),
      |RequiredOf(eligible)|, |UnionOf(eligible, constraints)|, ExclusionsOf(eligible, constraints, available),
      EvictedOf(eligible, constraints, SelectionOf(eligible, constraints, available)))
  }

  /** The parts of an allocation, each as a function of the inputs. */
  ghost predicate HasParts(eligible: seq<Candidate>, constraints: seq<Constraint>, available: nat, a: Allocated) {
    && a.included == InclusionsOf(available, SelectionOf(eligible, constraints, available), |RequiredOf(eligible)|,
                                  |RequiredOf(eligible)| + |UnionOf(eligible, constraints)|)
    && a.excluded == ExclusionsOf(eligible, constraints, available)
    && a.unallocated == Rest(available, SelectionOf(eligible, constraints, available))
    && a.evictionOrder == IdList(EvictedOf(eligible, constraints, SelectionOf(eligible, constraints, available)))
  }

  lemma AllocationHasParts(eligible: seq<Candidate>, constraints: seq<Constraint>, available: nat, a: Allocated)
    requires IsAllocation(eligible, constraints, available, a)
    requires InRuns(a.included, |RequiredOf(eligible)|, |RequiredOf(eligible)| + |UnionOf(eligible, constraints)|)
    ensures HasParts(eligible, constraints, available, a)
  {
    ChainDetermines(available, a.included, a.unallocated, |RequiredOf(eligible)|, |RequiredOf(eligible)| + |UnionOf(eligible, constraints)|);
  }

  lemma AllocationIs(eligible: seq<Candidate>, constraints: seq<Constraint>, available: nat, a: Allocated)
    requires HasParts(eligible, constraints, available, a)
    requires RefusalFor(eligible, constraints, available).None?
    ensures AllocationOf(eligible, constraints, available) == Ok(a)
  {
  }

  // ---------- whom it prefers ----------

  lemma RequiredInOrder(eligible: seq<Candidate>)
    requires DistinctIds(eligible)
    ensures SortedBy(NamedFirst, RequiredOf(eligible))
  {
    ByIdentifier(eligible);
    KeepDistinct(Sort(IdAtMost, eligible), IsRequired());
    ByIdentifier(Keep(Sort(IdAtMost, eligible), IsRequired()));
  }

  lemma CategoriesInOrder(constraints: seq<Constraint>)
    requires WellFormedPolicy(constraints)
    ensures InCategoryOrder(Sort(CategoryAtMost, constraints))
  {
    OrdersArePreorders();
    SortSorts(CategoryAtMost, constraints);
    SortedConstraints(constraints);
  }

  lemma UnionTakesCheapest(eligible: seq<Candidate>, constraints: seq<Constraint>)
    requires DistinctIds(eligible) && WellFormedPolicy(constraints)
    ensures TakesCheapest(OptionalOf(eligible), UnionOf(eligible, constraints))
  {
    SplitOf(eligible);
    SplitMembers(eligible, RequiredOf(eligible), OptionalOf(eligible));
    CategoriesInOrder(constraints);
    MinimumsTakeCheapest(RequiredOf(eligible), OptionalOf(eligible), Sort(CategoryAtMost, constraints));
  }

  lemma RestInOrder(eligible: seq<Candidate>, union: seq<Candidate>)
    requires DistinctIds(eligible)
    ensures var rest := RestOf(OptionalOf(eligible), union);
      SortedBy(ScoresHigher, rest) && forall c :: c in rest ==> c in OptionalOf(eligible) && c !in union
  {
    var optional := OptionalOf(eligible);
    SplitOf(eligible);
    SplitMembers(eligible, RequiredOf(eligible), optional);
    KeepDistinct(optional, NotIn(union));
    ByScore(Keep(optional, NotIn(union)));
  }

  /** The three runs of a selection, each in its order. */
  lemma RunsInOrder(included: seq<Inclusion>, required: seq<Candidate>, union: seq<Candidate>, tail: seq<Candidate>)
    requires Chosen(included) == required + union + tail && InRuns(included, |required|, |required| + |union|)
    requires SortedBy(NamedFirst, required) && SortedBy(ReservedFirst, union) && SortedBy(ScoresHigher, tail)
    ensures InDecisionOrder(included)
  {
    var n, m := |required|, |required| + |union|;
    forall i | 0 <= i < |included|
      ensures included[i].candidate == if i < n then required[i] else if i < m then union[i - n] else tail[i - m]
    {
      assert Chosen(included)[i] == included[i].candidate;
    }
  }

  /** Every candidate decided after the minimums is an optional one they did not take. */
  lemma OthersAreRest(included: seq<Inclusion>, required: seq<Candidate>, union: seq<Candidate>, others: seq<Candidate>, optional: seq<Candidate>)
    requires |included| >= |required| + |union| && Chosen(included)[..|required| + |union|] == required + union
    requires InRuns(included, |required|, |required| + |union|) && TakesCheapest(optional, union)
    requires forall c :: c in others ==> c in optional && c !in union
    ensures ReservesCheapest(included, others)
  {
    forall x, c | x in included && x.reason.IncludedCategoryMinimum? && c in others && c.category == x.candidate.category
      ensures CostsLess(x.candidate, c)
    {
      var i :| 0 <= i < |included| && included[i] == x;
      assert x.candidate == Chosen(included)[..|required| + |union|][i] == union[i - |required|];
    }
  }

  lemma TurnsKept(constraints: seq<Constraint>, available: nat, a: Allocated, m: nat)
    requires Chained(available, a.included, a.unallocated) && m <= |a.included|
    requires AreLeftOut(constraints, available, Chosen(a.included), m, a.excluded)
    ensures AllHadTurns(a.included[m..], a.excluded)
  {
    forall x, e | x in a.included[m..] && e in a.excluded ensures HadItsTurn(x, e) {
      var i :| m <= i < |a.included| && a.included[i] == x;
      ChainedLeft(available, a.included, a.unallocated, i);
      ChainedLeft(available, a.included, a.unallocated, i + 1);
      assert Left(available, a.included, i) == x.before;
      HadTurn(constraints, available, Chosen(a.included), m, e, i, x);
    }
  }

  /** The selection: the required candidates, the minimums, and a part of the rest in its order. */
  lemma SelectionInOrder(eligible: seq<Candidate>, constraints: seq<Constraint>, available: nat)
    requires DistinctIds(eligible) && WellFormedPolicy(constraints)
    ensures var start, chosen := RequiredOf(eligible) + UnionOf(eligible, constraints), SelectionOf(eligible, constraints, available);
      && start <= chosen && chosen == start + chosen[|start|..] && SortedBy(ScoresHigher, chosen[|start|..])
      && forall c :: c in chosen[|start|..] ==> c in RestOf(OptionalOf(eligible), UnionOf(eligible, constraints))
    ensures AreLeftInOrder(RestOf(OptionalOf(eligible), UnionOf(eligible, constraints)), ExclusionsOf(eligible, constraints, available))
  {
    var start, rest := RequiredOf(eligible) + UnionOf(eligible, constraints), RestOf(OptionalOf(eligible), UnionOf(eligible, constraints));
    RestInOrder(eligible, UnionOf(eligible, constraints));
    ScorePassInOrder(constraints, available, start, rest, SelectionOf(eligible, constraints, available), ExclusionsOf(eligible, constraints, available));
  }

  lemma ScorePassInOrder(ks: seq<Constraint>, available: nat, start: seq<Candidate>, rest: seq<Candidate>, chosen: seq<Candidate>, out: seq<Exclusion>)
    requires SortedBy(ScoresHigher, rest) && chosen == Greedy(ks, available, start, rest) && out == Exclusions(ks, available, start, rest)
    ensures start <= chosen && chosen == start + chosen[|start|..] && SortedBy(ScoresHigher, chosen[|start|..])
    ensures (forall c :: c in chosen[|start|..] ==> c in rest) && AreLeftInOrder(rest, out)
  {
    GreedyInOrder(ks, available, start, rest);
    ExclusionsInOrder(ks, available, start, rest);
  }

  /** The decisions of an allocation stand in their order, and the minimums are the cheapest. */
  lemma DecisionsInOrder(eligible: seq<Candidate>, constraints: seq<Constraint>, available: nat, a: Allocated)
    requires DistinctIds(eligible) && WellFormedPolicy(constraints)
    requires Chosen(a.included) == SelectionOf(eligible, constraints, available) && a.excluded == ExclusionsOf(eligible, constraints, available)
    requires InRuns(a.included, |RequiredOf(eligible)|, |RequiredOf(eligible)| + |UnionOf(eligible, constraints)|)
    ensures RequiredOf(eligible) + UnionOf(eligible, constraints) <= Chosen(a.included) && InDecisionOrder(a.included)
    ensures ReservesCheapest(a.included, Chosen(a.included)[|RequiredOf(eligible)| + |UnionOf(eligible, constraints)|..] + Dropped(a.excluded))
  {
    var required, union := RequiredOf(eligible), UnionOf(eligible, constraints);
    var tail := Chosen(a.included)[|required| + |union|..];
    RequiredInOrder(eligible);
    UnionTakesCheapest(eligible, constraints);
    RestInOrder(eligible, union);
    SelectionInOrder(eligible, constraints, available);
    RunsInOrder(a.included, required, union, tail);
    OthersAreRest(a.included, required, union, tail + Dropped(a.excluded), OptionalOf(eligible));
  }

  /** Every candidate left out has its place among the decisions. */
  lemma SelectionLeavesOut(eligible: seq<Candidate>, constraints: seq<Constraint>, available: nat, a: Allocated, m: nat)
    requires DistinctIds(eligible) && WellFormedPolicy(constraints)
    requires Chosen(a.included) == SelectionOf(eligible, constraints, available) && a.excluded == ExclusionsOf(eligible, constraints, available)
    requires m == |RequiredOf(eligible)| + |UnionOf(eligible, constraints)|
    requires Total(RequiredOf(eligible) + UnionOf(eligible, constraints), Tokens()) <= available
    ensures AreLeftOut(constraints, available, Chosen(a.included), m, a.excluded)
  {
    RestInOrder(eligible, UnionOf(eligible, constraints));
    ScorePassLeavesOut(constraints, available, RequiredOf(eligible) + UnionOf(eligible, constraints),
      RestOf(OptionalOf(eligible), UnionOf(eligible, constraints)), Chosen(a.included), m, a.excluded);
  }

  lemma StartAffordable(available: nat, included: seq<Inclusion>, remaining: nat, start: seq<Candidate>)
    requires Chained(available, included, remaining) && start <= Chosen(included)
    ensures Total(start, Tokens()) <= available
  {
    ChainedLeft(available, included, remaining, |start|);
    assert Chosen(included)[..|start|] == start;
  }

  /** An allocation's decisions prefer the best. */
  lemma AllocationPrefers(eligible: seq<Candidate>, constraints: seq<Constraint>, available: nat, a: Allocated, m: nat)
    requires DistinctIds(eligible) && WellFormedPolicy(constraints) && IsAllocation(eligible, constraints, available, a)
    requires m == |RequiredOf(eligible)| + |UnionOf(eligible, constraints)| && InRuns(a.included, |RequiredOf(eligible)|, m)
    ensures PrefersTheBest(constraints, available, a, m)
  {
    DecisionsInOrder(eligible, constraints, available, a);
    StartAffordable(available, a.included, a.unallocated, RequiredOf(eligible) + UnionOf(eligible, constraints));
    SelectionLeavesOut(eligible, constraints, available, a, m);
    TurnsKept(constraints, available, a, m);
  }

  /** The reason names the required candidates and no others. */
  ghost predicate ReasonsFit(included: seq<Inclusion>) {
    forall x :: x in included ==> (x.reason.IncludedRequired? <==> x.candidate.required)
  }

  lemma RunsFit(eligible: seq<Candidate>, included: seq<Inclusion>, m: nat)
    requires InRuns(included, |RequiredOf(eligible)|, m) && RequiredOf(eligible) <= Chosen(included)
    requires forall c :: c in Chosen(included)[|RequiredOf(eligible)|..] ==> !c.required
    ensures ReasonsFit(included)
  {
    SplitOf(eligible);
    ReasonsFollow(included, RequiredOf(eligible), m);
  }

  lemma ReasonsFollow(included: seq<Inclusion>, required: seq<Candidate>, m: nat)
    requires InRuns(included, |required|, m) && required <= Chosen(included) && forall c :: c in required ==> c.required
    requires forall c :: c in Chosen(included)[|required|..] ==> !c.required
    ensures ReasonsFit(included)
  {
    var n, chosen := |required|, Chosen(included);
    forall x | x in included ensures x.reason.IncludedRequired? <==> x.candidate.required {
      var i :| 0 <= i < |included| && included[i] == x;
      if i < n { assert chosen[i] == required[i]; } else { assert chosen[n..][i - n] == x.candidate; }
    }
  }

  lemma AllocationFits(eligible: seq<Candidate>, constraints: seq<Constraint>, available: nat, a: Allocated, m: nat)
    requires DistinctIds(eligible) && WellFormedPolicy(constraints) && IsAllocation(eligible, constraints, available, a)
    requires Countable(RequiredOf(eligible), OptionalOf(eligible), Sort(CategoryAtMost, constraints))
    requires Total(RequiredOf(eligible) + UnionOf(eligible, constraints), Tokens()) <= available
    requires InRuns(a.included, |RequiredOf(eligible)|, m)
    ensures ReasonsFit(a.included)
  {
    FinishedFacts(eligible, constraints, available, Chosen(a.included), Dropped(a.excluded));
    RunsFit(eligible, a.included, m);
  }

  /** An allocation with the reasons of its decisions and whom they prefer. */
  ghost predicate IsComplete(eligible: seq<Candidate>, constraints: seq<Constraint>, available: nat, a: Allocated, m: nat) {
    && IsAllocation(eligible, constraints, available, a) && InRuns(a.included, |RequiredOf(eligible)|, m)
    && PrefersTheBest(constraints, available, a, m) && ReasonsFit(a.included)
  }

  lemma AllocationIsComplete(eligible: seq<Candidate>, constraints: seq<Constraint>, available: nat, a: Allocated, m: nat)
    requires DistinctIds(eligible) && WellFormedPolicy(constraints) && IsAllocation(eligible, constraints, available, a)
    requires Countable(RequiredOf(eligible), OptionalOf(eligible), Sort(CategoryAtMost, constraints))
    requires Total(RequiredOf(eligible) + UnionOf(eligible, constraints), Tokens()) <= available
    requires m == |RequiredOf(eligible)| + |UnionOf(eligible, constraints)| && InRuns(a.included, |RequiredOf(eligible)|, m)
    ensures IsComplete(eligible, constraints, available, a, m)
  {
    AllocationPrefers(eligible, constraints, available, a, m);
    AllocationFits(eligible, constraints, available, a, m);
  }

  /** Selects the rest by score and finishes. */
  method Complete(eligible: seq<Candidate>, constraints: seq<Constraint>, state: Allocator, ghost first: seq<Inclusion>) returns (a: Allocated)
    requires DistinctIds(eligible) && WellFormedPolicy(constraints)
    requires Countable(RequiredOf(eligible), OptionalOf(eligible), Sort(CategoryAtMost, constraints))
    requires Total(RequiredOf(eligible), Tokens()) + Total(UnionOf(eligible, constraints), Tokens()) <= state.available
    requires state.Valid() && state.excluded == [] && state.constraints == constraints
    requires IsReserved(eligible, constraints, state.included, first)
    modifies state
    ensures IsComplete(eligible, constraints, state.available, a, |RequiredOf(eligible)| + |UnionOf(eligible, constraints)|)
  {
    ReservedFacts(eligible, constraints);
    TotalConcat(RequiredOf(eligible), UnionOf(eligible, constraints), Tokens());
    SelectRest(eligible, constraints, state, first);
    a := Finish(eligible, constraints, state, |RequiredOf(eligible)| + |UnionOf(eligible, constraints)|);
    AllocationIsComplete(eligible, constraints, state.available, a, |RequiredOf(eligible)| + |UnionOf(eligible, constraints)|);
  }

  /** What a refusal means, for the policy as declared. */
  ghost predicate Explained(eligible: seq<Candidate>, constraints: seq<Constraint>, available: nat, refusal: Refusal) {
    var required, optional := RequiredOf(eligible), OptionalOf(eligible);
    match refusal
    case CountsImpossible(issues) =>
      && !Countable(required, optional, constraints) && SortedBy(ReportedFirst, issues)
      && forall issue :: issue in issues <==> SomeReports(required, optional, constraints, issue)
    case RequiredExceedsBudget(c) =>
      && Countable(required, optional, constraints) && Total(required, Tokens()) > available
      && IsMisfit(NamedFirst, required, available, c)
    case MinimumsExceedBudget(c) =>
      && Countable(required, optional, constraints) && Total(required, Tokens()) <= available
      && Total(required, Tokens()) + Total(UnionOf(eligible, constraints), Tokens()) > available
      && IsMisfit(ReservedFirst, UnionOf(eligible, constraints), available - Total(required, Tokens()), c)
  }

  lemma CountableFollows(required: seq<Candidate>, optional: seq<Candidate>, ks: seq<Constraint>, js: seq<Constraint>)
    requires SameConstraints(ks, js) && Countable(required, optional, ks)
    ensures Countable(required, optional, js)
  {
    forall i | 0 <= i < |js|
      ensures Needed(js[i], required) <= Count(optional, js[i].category)
      ensures js[i].maxBlocks.Some? ==> Count(required, js[i].category) <= js[i].maxBlocks.value
    {
      assert js[i] in ks;
      var j :| 0 <= j < |ks| && ks[j] == js[i];
    }
  }

  lemma ReportsFollow(required: seq<Candidate>, optional: seq<Candidate>, ks: seq<Constraint>, js: seq<Constraint>, issue: CountIssue)
    requires SameConstraints(ks, js) && SomeReports(required, optional, ks, issue)
    ensures SomeReports(required, optional, js, issue)
  {
    var i :| 0 <= i < |ks| && Reports(ks[i], required, optional, issue);
    assert ks[i] in js;
    var j :| 0 <= j < |js| && js[j] == ks[i];
  }

  lemma MisfitsAreFirst(eligible: seq<Candidate>, constraints: seq<Constraint>, available: nat)
    requires DistinctIds(eligible) && WellFormedPolicy(constraints)
    ensures var misfit := Misfit(RequiredOf(eligible), available);
      misfit.Some? ==> IsMisfit(NamedFirst, RequiredOf(eligible), available, misfit.value)
    ensures var misfit := Misfit(UnionOf(eligible, constraints), Rest(available, RequiredOf(eligible)));
      misfit.Some? ==> IsMisfit(ReservedFirst, UnionOf(eligible, constraints), Rest(available, RequiredOf(eligible)), misfit.value)
  {
    OrdersAreOneWay();
    RequiredInOrder(eligible);
    UnionTakesCheapest(eligible, constraints);
    MisfitIsFirst(NamedFirst, RequiredOf(eligible), available);
    MisfitIsFirst(ReservedFirst, UnionOf(eligible, constraints), Rest(available, RequiredOf(eligible)));
  }

  /** Each refusal names its own cause. */
  lemma RefusalExplained(eligible: seq<Candidate>, constraints: seq<Constraint>, available: nat)
    requires DistinctIds(eligible) && WellFormedPolicy(constraints)
    ensures var refusal := RefusalFor(eligible, constraints, available);
      refusal.Some? ==> Explained(eligible, constraints, available, refusal.value)
  {
    var required, optional, ks := RequiredOf(eligible), OptionalOf(eligible), Sort(CategoryAtMost, constraints);
    SortedConstraints(constraints);
    CountableIffNoIssue(required, optional, ks);
    if Countable(required, optional, ks) {
      CountableFollows(required, optional, ks, constraints);
      MisfitIff(required, available);
      MisfitIff(UnionOf(eligible, constraints), Rest(available, required));
      MisfitsAreFirst(eligible, constraints, available);
    } else {
      CategoriesInOrder(constraints);
      IssuesInOrder(required, optional, ks);
      if Countable(required, optional, constraints) { CountableFollows(required, optional, constraints, ks); }
      forall issue ensures issue in AllIssues(required, optional, ks) <==> SomeReports(required, optional, constraints, issue) {
        AllIssuesReport(required, optional, ks, issue);
        if SomeReports(required, optional, ks, issue) { ReportsFollow(required, optional, ks, constraints, issue); }
        if SomeReports(required, optional, constraints, issue) { ReportsFollow(required, optional, constraints, ks, issue); }
      }
    }
  }

  /** Something does not fit exactly when the sum does not. */
  lemma {:induction false} MisfitIff(cs: seq<Candidate>, budget: nat)
    ensures Misfit(cs, budget).Some? <==> Total(cs, Tokens()) > budget
    decreases |cs|
  {
    if cs != [] {
      assert cs == [cs[0]] + cs[1..];
      TotalConcat([cs[0]], cs[1..], Tokens());
      assert [cs[0]][..0] == [];
      if cs[0].tokens <= budget { MisfitIff(cs[1..], budget - cs[0].tokens); }
    }
  }

  /** Allocates one scored batch, all or nothing: it succeeds exactly when some selection satisfies the
  policy within the content budget, and each refusal names its cause. */
  method Allocate(eligible: seq<Candidate>, constraints: seq<Constraint>, available: nat) returns (r: Result<Allocated, Refusal>)
    requires DistinctIds(eligible) && WellFormedPolicy(constraints)
    ensures r == AllocationOf(eligible, constraints, available)
    ensures r.Ok? <==> Feasible(eligible, constraints, available)
    ensures r.Ok? ==> IsComplete(eligible, constraints, available, r.value, |RequiredOf(eligible)| + |UnionOf(eligible, constraints)|)
    ensures r.Err? ==> Explained(eligible, constraints, available, r.error)
  {
    var required, optional, ks := RequiredOf(eligible), OptionalOf(eligible), Sort(CategoryAtMost, constraints);
    if Feasible(eligible, constraints, available) { FeasibleIsAffordable(eligible, constraints, available); }
    RefusalExplained(eligible, constraints, available);
    var issues := DetectCategoryCountFailures(required, optional, ks);
    CountableIffNoIssue(required, optional, ks);
    if issues != [] { return Err(CountsImpossible(issues)); }
    var state := new Allocator(constraints, available);
    var refusal, first := Reserve(required, optional, ks, state);
    if refusal.Some? { return Err(refusal.value); }
    var a := Complete(eligible, constraints, state, first);
    AllocationIsFeasible(eligible, constraints, available, a);
    AllocationHasParts(eligible, constraints, available, a);
    AllocationIs(eligible, constraints, available, a);
    r := Ok(a);
  }

  // ---------- what the value promises ----------

  lemma GreedyAdd(ks: seq<Constraint>, available: nat, chosen: seq<Candidate>, most: seq<Candidate>, c: Candidate)
    ensures var before := Greedy(ks, available, chosen, most);
      Greedy(ks, available, chosen, most + [c]) == if Admits(ks, available, before, c) then before + [c] else before
    ensures Exclusions(ks, available, chosen, most + [c]) == Exclusions(ks, available, chosen, most)
      + if Admits(ks, available, Greedy(ks, available, chosen, most), c) then []
        else [ExclusionOf(ks, available, Greedy(ks, available, chosen, most), c)]
  {
    assert (most + [c])[..|most|] == most;
  }

  lemma LeftOut(left: seq<Exclusion>, e: Exclusion)
    ensures Dropped(left + [e]) == Dropped(left) + [e.candidate]
  {
  }

  /** The greedy pass keeps a candidate or excludes it. */
  lemma {:induction false} GreedyPartitions(ks: seq<Constraint>, available: nat, chosen: seq<Candidate>, order: seq<Candidate>)
    ensures multiset(Greedy(ks, available, chosen, order)) + multiset(Dropped(Exclusions(ks, available, chosen, order)))
         == multiset(chosen + order)
  {
    if order == [] {
      assert chosen + order == chosen;
    } else {
      var most, c := order[..|order| - 1], order[|order| - 1];
      var before, left := Greedy(ks, available, chosen, most), Exclusions(ks, available, chosen, most);
      assert order == most + [c] && chosen + order == (chosen + most) + [c];
      GreedyPartitions(ks, available, chosen, most);
      GreedyAdd(ks, available, chosen, most, c);
      OneMoreParted(before, left, chosen + most, ExclusionOf(ks, available, before, c), Admits(ks, available, before, c),
        Greedy(ks, available, chosen, most + [c]), Exclusions(ks, available, chosen, most + [c]));
    }
  }

  lemma OneMoreParted(before: seq<Candidate>, left: seq<Exclusion>, all: seq<Candidate>, e: Exclusion, admitted: bool,
      after: seq<Candidate>, out: seq<Exclusion>)
    requires multiset(before) + multiset(Dropped(left)) == multiset(all)
    requires after == (if admitted then before + [e.candidate] else before) && out == left + if admitted then [] else [e]
    ensures multiset(after) + multiset(Dropped(out)) == multiset(all + [e.candidate])
  {
    LeftOut(left, e);
    PartitionGrows(before, Dropped(left), all, e.candidate);
    if admitted { assert out == left; }
  }

  lemma FeasibleIffNotRefused(eligible: seq<Candidate>, constraints: seq<Constraint>, available: nat)
    requires DistinctIds(eligible) && WellFormedPolicy(constraints) && Feasible(eligible, constraints, available)
    ensures RefusalFor(eligible, constraints, available).None?
  {
    FeasibleIsAffordable(eligible, constraints, available);
    CountableIffNoIssue(RequiredOf(eligible), OptionalOf(eligible), Sort(CategoryAtMost, constraints));
    MisfitIff(RequiredOf(eligible), available);
    MisfitIff(UnionOf(eligible, constraints), Rest(available, RequiredOf(eligible)));
  }

  /** A selection that is not refused satisfies the policy within the budget, and gives back safely. */
  lemma SelectionStarts(eligible: seq<Candidate>, constraints: seq<Constraint>, available: nat)
    requires DistinctIds(eligible) && WellFormedPolicy(constraints) && RefusalFor(eligible, constraints, available).None?
    ensures var chosen := SelectionOf(eligible, constraints, available);
      && IsSelection(eligible, chosen) && MeetsPolicy(eligible, constraints, Ids(chosen)) && Content(eligible, Ids(chosen)) <= available
      && EveryPrefixSafe(eligible, constraints, Ids(chosen), IdList(EvictedOf(eligible, constraints, chosen)))
  {
    var required, optional, union := RequiredOf(eligible), OptionalOf(eligible), UnionOf(eligible, constraints);
    var chosen := SelectionOf(eligible, constraints, available);
    CountableIffNoIssue(required, optional, Sort(CategoryAtMost, constraints));
    MisfitIff(required, available);
    MisfitIff(union, Rest(available, required));
    TotalConcat(required, union, Tokens());
    ReservedFacts(eligible, constraints);
    GreedyPartitions(constraints, available, required + union, RestOf(optional, union));
    FinishedFacts(eligible, constraints, available, chosen, Dropped(ExclusionsOf(eligible, constraints, available)));
    EvictionStarts(eligible, constraints, chosen);
  }

  lemma EvictionStarts(eligible: seq<Candidate>, constraints: seq<Constraint>, chosen: seq<Candidate>)
    requires DistinctIds(eligible) && DistinctCategories(constraints)
    requires IsSelection(eligible, chosen) && MeetsPolicy(eligible, constraints, Ids(chosen))
    ensures EveryPrefixSafe(eligible, constraints, Ids(chosen), IdList(EvictedOf(eligible, constraints, chosen)))
  {
    var optional := Keep(chosen, IsOptional());
    KeepDistinct(chosen, IsOptional());
    SortPermutes(EvictAtMost, optional);
    RearrangedDistinct(optional, Sort(EvictAtMost, optional));
    GivenBackSafe(eligible, constraints, Ids(chosen), Sort(EvictAtMost, optional));
  }

  /** Whatever prefix of its order a selection gives back, it keeps the best. */
  lemma EvictionKeepsBest(eligible: seq<Candidate>, constraints: seq<Constraint>, chosen: seq<Candidate>, n: nat)
    requires DistinctIds(eligible) && DistinctCategories(constraints)
    requires IsSelection(eligible, chosen) && MeetsPolicy(eligible, constraints, Ids(chosen))
    requires n <= |EvictedOf(eligible, constraints, chosen)|
    ensures KeepsTheBest(eligible, constraints, Ids(chosen), Ids(chosen) - Given(IdList(EvictedOf(eligible, constraints, chosen)), n))
  {
    var optional := Keep(chosen, IsOptional());
    KeepDistinct(chosen, IsOptional());
    EvictionStarts(eligible, constraints, chosen);
    EvictedInOrder(eligible, constraints, Ids(chosen), optional);
    EvictedAreWorst(eligible, constraints, Ids(chosen), optional);
    forall c | c in eligible && c.id in Ids(chosen) && !c.required ensures c in optional {
      var x :| x in chosen && x.id == c.id;
      SameIdSame(eligible, x, c);
    }
    PrefixKeepsBest(eligible, constraints, Ids(chosen), optional, EvictedOf(eligible, constraints, chosen), n);
  }

  // ---------- the order of the inputs ----------

  lemma SameGoverning(ks: seq<Constraint>, js: seq<Constraint>, category: Option<Text>)
    requires DistinctCategories(ks) && DistinctCategories(js) && SameConstraints(ks, js)
    ensures Governing(ks, category) == Governing(js, category)
  {
    var k, j := Governing(ks, category), Governing(js, category);
    if k.Some? {
      var i :| 0 <= i < |js| && js[i] == k.value;
      GoverningIs(js, i);
    }
    if j.Some? {
      var i :| 0 <= i < |ks| && ks[i] == j.value;
      GoverningIs(ks, i);
    }
  }

  lemma {:induction false} SameGreedy(ks: seq<Constraint>, js: seq<Constraint>, available: nat, chosen: seq<Candidate>, order: seq<Candidate>)
    requires DistinctCategories(ks) && DistinctCategories(js) && SameConstraints(ks, js)
    ensures Greedy(ks, available, chosen, order) == Greedy(js, available, chosen, order)
    ensures Exclusions(ks, available, chosen, order) == Exclusions(js, available, chosen, order)
  {
    if order != [] {
      SameGreedy(ks, js, available, chosen, order[..|order| - 1]);
      SameGoverning(ks, js, order[|order| - 1].category);
    }
  }

  lemma {:induction false} SameGivenBack(eligible: seq<Candidate>, other: seq<Candidate>, ks: seq<Constraint>, js: seq<Constraint>, ids: set<Text>, sorted: seq<Candidate>)
    requires DistinctCategories(ks) && DistinctCategories(js) && SameConstraints(ks, js) && multiset(eligible) == multiset(other)
    ensures GivenBack(eligible, ks, ids, sorted) == GivenBack(other, js, ids, sorted)
  {
    if sorted != [] {
      var n := |sorted| - 1;
      SameGivenBack(eligible, other, ks, js, ids, sorted[..n]);
      var left := ids - Ids(GivenBack(eligible, ks, ids, sorted[..n]));
      SameGoverning(ks, js, sorted[n].category);
      var k := Governing(ks, sorted[n].category);
      if k.Some? { TotalPermutes(eligible, other, Among(left, OfCategory(k.value.category))); }
    }
  }

  lemma SameSortedIds(eligible: seq<Candidate>, other: seq<Candidate>)
    requires DistinctIds(eligible) && multiset(eligible) == multiset(other)
    ensures Sort(IdAtMost, eligible) == Sort(IdAtMost, other)
  {
    AtMostIsTotalOrder();
    OrdersArePreorders();
    forall x, y | x in eligible && y in eligible && IdAtMost(x, y) && IdAtMost(y, x) ensures x == y { SameIdSame(eligible, x, y); }
    SortOrderIndependent(IdAtMost, eligible, other);
  }

  lemma SameSortedConstraints(ks: seq<Constraint>, js: seq<Constraint>)
    requires WellFormedPolicy(ks) && multiset(ks) == multiset(js)
    ensures Sort(CategoryAtMost, ks) == Sort(CategoryAtMost, js) && SameConstraints(ks, js) && WellFormedPolicy(js)
  {
    AtMostIsTotalOrder();
    OrdersArePreorders();
    forall x, y | x in ks && y in ks && CategoryAtMost(x, y) && CategoryAtMost(y, x) ensures x == y {
      var i :| 0 <= i < |ks| && ks[i] == x;
      var j :| 0 <= j < |ks| && ks[j] == y;
    }
    SortOrderIndependent(CategoryAtMost, ks, js);
    SameElements(ks, js);
    assert DistinctBy(CategoryOf, ks);
    DistinctPermutes(CategoryOf, ks, js);
    assert forall i, j :: 0 <= i < j < |js| ==> CategoryOf(js[i]) != CategoryOf(js[j]);
    forall i | 0 <= i < |js| && js[i].minBlocks.Some? && js[i].maxBlocks.Some? ensures js[i].minBlocks.value <= js[i].maxBlocks.value {
      assert js[i] in ks;
    }
  }

  lemma SameReservation(eligible: seq<Candidate>, other: seq<Candidate>, constraints: seq<Constraint>, permuted: seq<Constraint>)
    requires DistinctIds(eligible) && multiset(eligible) == multiset(other)
    requires WellFormedPolicy(constraints) && multiset(constraints) == multiset(permuted)
    ensures RequiredOf(eligible) == RequiredOf(other) && OptionalOf(eligible) == OptionalOf(other)
    ensures UnionOf(eligible, constraints) == UnionOf(other, permuted)
    ensures forall available :: RefusalFor(eligible, constraints, available) == RefusalFor(other, permuted, available)
  {
    SameSortedIds(eligible, other);
    SameSortedConstraints(constraints, permuted);
  }

  lemma SameSelection(eligible: seq<Candidate>, other: seq<Candidate>, constraints: seq<Constraint>, permuted: seq<Constraint>, available: nat)
    requires DistinctIds(eligible) && multiset(eligible) == multiset(other)
    requires WellFormedPolicy(constraints) && multiset(constraints) == multiset(permuted)
    ensures SelectionOf(eligible, constraints, available) == SelectionOf(other, permuted, available)
    ensures ExclusionsOf(eligible, constraints, available) == ExclusionsOf(other, permuted, available)
  {
    SameReservation(eligible, other, constraints, permuted);
    SameSortedConstraints(constraints, permuted);
    var union := UnionOf(eligible, constraints);
    SameGreedy(constraints, permuted, available, RequiredOf(eligible) + union, RestOf(OptionalOf(eligible), union));
  }

  lemma SameEvicted(eligible: seq<Candidate>, other: seq<Candidate>, constraints: seq<Constraint>, permuted: seq<Constraint>, chosen: seq<Candidate>)
    requires multiset(eligible) == multiset(other)
    requires WellFormedPolicy(constraints) && multiset(constraints) == multiset(permuted)
    ensures EvictedOf(eligible, constraints, chosen) == EvictedOf(other, permuted, chosen)
  {
    SameSortedConstraints(constraints, permuted);
    SameGivenBack(eligible, other, constraints, permuted, Ids(chosen), Sort(EvictAtMost, Keep(chosen, IsOptional())));
  }

  /** Neither the order candidates arrive in nor the order constraints are declared in decides anything: not
  the decisions, their budgets, the exclusions, the issues, the blocking candidate or the eviction order. */
  lemma ArrivalOrderIrrelevant(eligible: seq<Candidate>, other: seq<Candidate>, constraints: seq<Constraint>, permuted: seq<Constraint>, available: nat)
    requires DistinctIds(eligible) && multiset(eligible) == multiset(other)
    requires WellFormedPolicy(constraints) && multiset(constraints) == multiset(permuted)
    ensures AllocationOf(eligible, constraints, available) == AllocationOf(other, permuted, available)
  {
    SameReservation(eligible, other, constraints, permuted);
    SameSelection(eligible, other, constraints, permuted, available);
    SameEvicted(eligible, other, constraints, permuted, SelectionOf(eligible, constraints, available));
  }
}

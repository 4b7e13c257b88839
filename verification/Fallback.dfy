/** The fallback search of a compilation: the required blocks alone, the hard bases, then every selection
the policy allows. */
module Fallback {
  import opened Options
  import opened Utf16
  import opened Numbers
  import opened Sorting
  import opened Subsets
  import opened Selections
  import opened Choices
  import opened Minimums
  import opened Allocation
  import opened BudgetAllocator
  import opened Rescue
  import opened Bases
  import opened Correction

  // ---------- what the rescue walks ----------

  function RequiredIn(eligible: seq<Candidate>): seq<Candidate> { Keep(eligible, IsRequired()) }

  function OptionalIn(eligible: seq<Candidate>): seq<Candidate> { Keep(eligible, IsOptional()) }

  function PoolOf(eligible: seq<Candidate>): seq<Candidate> { Sort(RescueAtMost, OptionalIn(eligible)) }

  lemma PoolSplits(eligible: seq<Candidate>)
    requires DistinctIds(eligible)
    ensures Splits(eligible, RequiredIn(eligible), OptionalIn(eligible)) && Splits(eligible, RequiredIn(eligible), PoolOf(eligible))
    ensures Grouped(PoolOf(eligible))
  {
    KeepPartitions(eligible, IsRequired(), IsOptional());
    SortPermutes(RescueAtMost, OptionalIn(eligible));
    SameElements(OptionalIn(eligible), PoolOf(eligible));
    RescueIsPreorder();
    SortSorts(RescueAtMost, OptionalIn(eligible));
    SortedIsGrouped(PoolOf(eligible));
  }

  /** The required candidates with each list of picks. */
  function WithPicks(required: seq<Candidate>, pool: seq<Candidate>, ts: seq<seq<nat>>): (selections: seq<seq<Candidate>>)
    ensures |selections| == |ts|
    ensures forall i :: 0 <= i < |ts| && InPool(pool, ts[i]) ==> selections[i] == required + Picks(pool, ts[i])
  {
    seq(|ts|, i requires 0 <= i < |ts| => if InPool(pool, ts[i]) then required + Picks(pool, ts[i]) else required)
  }

  /** The selections of the rescue, in its order. */
  function RescueSelections(eligible: seq<Candidate>, constraints: seq<Constraint>): seq<seq<Candidate>> {
    var required, pool := RequiredIn(eligible), PoolOf(eligible);
    WithPicks(required, pool, ValidSelections(pool, required, constraints))
  }

  lemma CountsAdd(a: seq<Candidate>, b: seq<Candidate>)
    ensures forall category :: Count(a + b, category) == Count(a, category) + Count(b, category)
  {
    forall category ensures Count(a + b, category) == Count(a, category) + Count(b, category) { CountConcat(a, b, category); }
  }

  /** The positions below `n` whose candidates are named. */
  function Marked(pool: seq<Candidate>, ids: set<Text>, n: nat): (t: seq<nat>)
    requires n <= |pool|
    ensures IsSubset(n, t) && forall i :: 0 <= i < n ==> (i in t <==> pool[i].id in ids)
  {
    if n == 0 then [] else
      var before := Marked(pool, ids, n - 1);
      if pool[n - 1].id in ids then before + [n - 1] else before
  }

  lemma JoinedIsSelection(eligible: seq<Candidate>, required: seq<Candidate>, pool: seq<Candidate>, t: seq<nat>)
    requires DistinctIds(eligible) && Splits(eligible, required, pool) && IsSubset(|pool|, t)
    ensures IsSelection(eligible, required + Picks(pool, t))
    ensures forall category :: Count(required + Picks(pool, t), category) == Count(required, category) + Count(Picks(pool, t), category)
  {
    SplitMembers(eligible, required, pool);
    PicksSelect(pool, t);
    JoinSelections(eligible, required, pool, Picks(pool, t));
    CountsAdd(required, Picks(pool, t));
  }

  lemma JoinSelections(eligible: seq<Candidate>, required: seq<Candidate>, pool: seq<Candidate>, picks: seq<Candidate>)
    requires DistinctIds(eligible) && Splits(eligible, required, pool) && IsSelection(pool, picks)
    ensures IsSelection(eligible, required + picks)
  {
    SplitMembers(eligible, required, pool);
    forall x, y | x in required && y in picks ensures x.id != y.id {
      assert DistinctBy(IdOf, required + pool);
      assert x in required + pool && y in required + pool && x.required && !y.required;
      DistinctDiffers(IdOf, required + pool, x, y);
    }
    ConcatDistinct(required, picks);
  }

  /** A selection with the required candidates whose counts satisfy the constraints. */
  lemma JoinedMeets(eligible: seq<Candidate>, constraints: seq<Constraint>, required: seq<Candidate>, pool: seq<Candidate>, picks: seq<Candidate>)
    requires DistinctIds(eligible) && Splits(eligible, required, pool) && IsSelection(pool, picks)
    requires CountsMeet(constraints, required + picks)
    ensures MeetsPolicy(eligible, constraints, Ids(required + picks)) && IsSelection(eligible, required + picks)
    ensures Content(eligible, Ids(required + picks)) == Total(required + picks, Tokens())
  {
    JoinSelections(eligible, required, pool, picks);
    SplitMembers(eligible, required, pool);
    forall c | c in eligible && c.required ensures c in required + picks { assert c in required + pool; assert c in required; }
    CountsAllow(eligible, constraints, required + picks);
  }

  /** Everything the rescue yields is a selection the policy allows. */
  lemma YieldedIsAllowed(eligible: seq<Candidate>, constraints: seq<Constraint>, s: seq<Candidate>)
    requires DistinctIds(eligible)
    requires s in RescueSelections(eligible, constraints)
    ensures IsSelection(eligible, s) && MeetsPolicy(eligible, constraints, Ids(s)) && Content(eligible, Ids(s)) == Total(s, Tokens())
  {
    var required, pool := RequiredIn(eligible), PoolOf(eligible);
    var ts := ValidSelections(pool, required, constraints);
    var i :| 0 <= i < |ts| && WithPicks(required, pool, ts)[i] == s;
    EachValidOnce(pool, required, constraints);
    assert ts[i] in ts;
    PoolSplits(eligible);
    SplitMembers(eligible, required, pool);
    PicksSelect(pool, ts[i]);
    CountsAdd(required, Picks(pool, ts[i]));
    JoinedMeets(eligible, constraints, required, pool, Picks(pool, ts[i]));
  }

  lemma MarkedHolds(pool: seq<Candidate>, ids: set<Text>, c: Candidate)
    requires c in pool && c.id in ids
    ensures c in Picks(pool, Marked(pool, ids, |pool|))
  {
    var t := Marked(pool, ids, |pool|);
    var i :| 0 <= i < |pool| && pool[i] == c;
    var j :| 0 <= j < |t| && t[j] == i;
    assert Picks(pool, t)[j] == c;
  }

  lemma MarkedOnly(pool: seq<Candidate>, ids: set<Text>, c: Candidate)
    requires c in Picks(pool, Marked(pool, ids, |pool|))
    ensures c.id in ids
  {
    var t := Marked(pool, ids, |pool|);
    var j :| 0 <= j < |t| && Picks(pool, t)[j] == c;
    assert t[j] in t;
  }

  /** The positions of a selection's optional part name the selection. */
  lemma MarkedNames(eligible: seq<Candidate>, required: seq<Candidate>, pool: seq<Candidate>, ids: set<Text>)
    requires DistinctIds(eligible) && Splits(eligible, required, pool)
    requires ids <= Ids(eligible) && forall c :: c in required ==> c.id in ids
    ensures Ids(required + Picks(pool, Marked(pool, ids, |pool|))) == ids
  {
    var s := required + Picks(pool, Marked(pool, ids, |pool|));
    SplitMembers(eligible, required, pool);
    forall id | id in ids ensures id in Ids(s) {
      var c :| c in eligible && c.id == id;
      assert c in required + pool;
      if c !in required { MarkedHolds(pool, ids, c); }
      assert c in s;
    }
    forall c | c in s ensures c.id in ids {
      if c !in required { MarkedOnly(pool, ids, c); }
    }
  }

  /** Every selection the policy allows is yielded by the rescue. */
  lemma AllowedIsYielded(eligible: seq<Candidate>, constraints: seq<Constraint>, ids: set<Text>)
    requires DistinctIds(eligible) && MeetsPolicy(eligible, constraints, ids)
    ensures exists s :: s in RescueSelections(eligible, constraints) && IsSelection(eligible, s) && Ids(s) == ids
  {
    var required, pool := RequiredIn(eligible), PoolOf(eligible);
    PoolSplits(eligible);
    MarkedNames(eligible, required, pool, ids);
    var t := Marked(pool, ids, |pool|);
    var s := required + Picks(pool, t);
    JoinedIsSelection(eligible, required, pool, t);
    SelectionFacts(eligible, s);
    forall i | 0 <= i < |constraints|
      ensures Meets(constraints[i], Count(required, constraints[i].category) + Count(Picks(pool, t), constraints[i].category))
    {
      assert Meets(constraints[i], Blocks(eligible, ids, constraints[i].category));
    }
    var ts := ValidSelections(pool, required, constraints);
    EachValidOnce(pool, required, constraints);
    assert t in ts;
    var i :| 0 <= i < |ts| && ts[i] == t;
    assert WithPicks(required, pool, ts)[i] == s;
  }

  // ---------- hard bases ----------

  function BasesOf(required: seq<Candidate>, tuples: seq<seq<seq<Candidate>>>): (bases: seq<seq<Candidate>>)
    ensures |bases| == |tuples| && forall i :: 0 <= i < |tuples| ==> bases[i] == required + Flat(tuples[i])
  {
    seq(|tuples|, i requires 0 <= i < |tuples| => required + Flat(tuples[i]))
  }

  /** The hard bases of a compilation, in the allocator's order of preference. */
  function HardBases(eligible: seq<Candidate>, constraints: seq<Constraint>): seq<seq<Candidate>> {
    var required, optional := RequiredIn(eligible), OptionalIn(eligible);
    BasesOf(required, Product(AllCombos(DeficitsOf(required, optional, Sort(CategoryAtMost, constraints)))))
  }

  /** A feasible compilation owes no category more than it can supply. */
  lemma FeasibleIsCountable(eligible: seq<Candidate>, constraints: seq<Constraint>, available: nat)
    requires DistinctIds(eligible) && WellFormedPolicy(constraints) && Feasible(eligible, constraints, available)
    ensures WellFormedPolicy(Sort(CategoryAtMost, constraints))
    ensures Countable(RequiredIn(eligible), OptionalIn(eligible), Sort(CategoryAtMost, constraints))
  {
    var ids :| MeetsPolicy(eligible, constraints, ids) && Content(eligible, ids) <= available;
    SortedConstraints(constraints);
    PolicyFollows(eligible, constraints, Sort(CategoryAtMost, constraints), ids);
    PoolSplits(eligible);
    NothingIsCheaper(eligible, Sort(CategoryAtMost, constraints), RequiredIn(eligible), OptionalIn(eligible), ids);
  }

  /** Every hard base is a selection the policy allows. */
  lemma BasesAreAllowed(eligible: seq<Candidate>, constraints: seq<Constraint>, available: nat, s: seq<Candidate>)
    requires DistinctIds(eligible) && WellFormedPolicy(constraints) && Feasible(eligible, constraints, available)
    requires s in HardBases(eligible, constraints)
    ensures IsSelection(eligible, s) && MeetsPolicy(eligible, constraints, Ids(s)) && Content(eligible, Ids(s)) == Total(s, Tokens())
  {
    var required, optional, ks := RequiredIn(eligible), OptionalIn(eligible), Sort(CategoryAtMost, constraints);
    FeasibleIsCountable(eligible, constraints, available);
    PoolSplits(eligible);
    SplitMembers(eligible, required, optional);
    var tuples := Product(AllCombos(DeficitsOf(required, optional, ks)));
    var i :| 0 <= i < |tuples| && BasesOf(required, tuples)[i] == s;
    BaseMeetsPolicy(required, optional, ks, tuples[i]);
    SortedConstraints(constraints);
    CountsFollow(ks, constraints, s);
    JoinedMeets(eligible, constraints, required, optional, Flat(tuples[i]));
  }

  /** The first base is the selection the allocator reserved. */
  lemma FirstBaseIsReserved(eligible: seq<Candidate>, constraints: seq<Constraint>, available: nat)
    requires DistinctIds(eligible) && WellFormedPolicy(constraints) && Feasible(eligible, constraints, available)
    ensures HardBases(eligible, constraints) != []
    ensures Ids(HardBases(eligible, constraints)[0]) == Ids(RequiredOf(eligible) + UnionOf(eligible, constraints))
  {
    var required, optional, ks := RequiredIn(eligible), OptionalIn(eligible), Sort(CategoryAtMost, constraints);
    FeasibleIsCountable(eligible, constraints, available);
    PoolSplits(eligible);
    SplitMembers(eligible, required, optional);
    FirstBaseIsCheapest(required, optional, ks);
    SameReserved(eligible, ks);
    assert HardBases(eligible, constraints)[0] == required + Cheapest(required, optional, ks);
  }

  /** Arrival order and identifier order reserve the same candidates. */
  lemma SameReserved(eligible: seq<Candidate>, ks: seq<Constraint>)
    requires DistinctIds(eligible)
    ensures Ids(RequiredIn(eligible) + Cheapest(RequiredIn(eligible), OptionalIn(eligible), ks))
         == Ids(RequiredOf(eligible) + Cheapest(RequiredOf(eligible), OptionalOf(eligible), ks))
  {
    var required, optional := RequiredIn(eligible), OptionalIn(eligible);
    PoolSplits(eligible);
    SplitMembers(eligible, required, optional);
    SplitOf(eligible);
    SameSplit(eligible, required, optional, RequiredOf(eligible), OptionalOf(eligible));
    SameCheapest(required, optional, RequiredOf(eligible), OptionalOf(eligible), ks);
    SameIds(required, RequiredOf(eligible), Cheapest(required, optional, ks));
  }

  lemma SameIds(a: seq<Candidate>, b: seq<Candidate>, c: seq<Candidate>)
    requires forall x :: x in a <==> x in b
    ensures Ids(a + c) == Ids(b + c)
  {
    assert forall x :: x in a + c <==> x in b + c;
  }

  lemma SameSplit(eligible: seq<Candidate>, required: seq<Candidate>, optional: seq<Candidate>, required': seq<Candidate>, optional': seq<Candidate>)
    requires DistinctIds(eligible) && Splits(eligible, required, optional) && Splits(eligible, required', optional')
    ensures multiset(required) == multiset(required') && multiset(optional) == multiset(optional')
    ensures forall c :: c in required <==> c in required'
  {
    SplitMembers(eligible, required, optional);
    SplitMembers(eligible, required', optional');
    forall c ensures (c in required <==> c in required') && (c in optional <==> c in optional') {
      assert c in required + optional <==> c in required' + optional';
    }
    SameMembersPermute(required, required');
    SameMembersPermute(optional, optional');
  }

  /** The union does not depend on the order the candidates arrive in. */
  lemma {:induction false} SameCheapest(required: seq<Candidate>, optional: seq<Candidate>, required': seq<Candidate>, optional': seq<Candidate>, ks: seq<Constraint>)
    requires DistinctIds(optional) && multiset(required) == multiset(required') && multiset(optional) == multiset(optional')
    ensures Cheapest(required, optional, ks) == Cheapest(required', optional', ks)
  {
    if ks != [] {
      var k := ks[|ks| - 1];
      SameCheapest(required, optional, required', optional', ks[..|ks| - 1]);
      CountIsTotal(required, k.category);
      CountIsTotal(required', k.category);
      TotalPermutes(required, required', OfCategory(k.category));
      SamePreferred(optional, optional', k.category);
    }
  }

  lemma SamePreferred(optional: seq<Candidate>, optional': seq<Candidate>, category: Text)
    requires DistinctIds(optional) && multiset(optional) == multiset(optional')
    ensures Preferred(optional, category) == Preferred(optional', category)
  {
    RearrangedDistinct(optional, optional');
    var kept, kept' := Keep(optional, IsOf(category)), Keep(optional', IsOf(category));
    KeepDistinct(optional, IsOf(category));
    KeepDistinct(optional', IsOf(category));
    SameMembersPermute(kept, kept');
    OrdersArePreorders();
    forall x, y | x in kept && y in kept && MinimumAtMost(x, y) && MinimumAtMost(y, x) ensures x == y {
      AtMostIsTotalOrder();
      SameIdSame(kept, x, y);
    }
    SortOrderIndependent(MinimumAtMost, kept, kept');
  }

  // ---------- the lists it walks ----------

  method JoinAll(required: seq<Candidate>, tuples: seq<seq<seq<Candidate>>>) returns (selections: seq<seq<Candidate>>)
    ensures selections == BasesOf(required, tuples)
  {
    selections := [];
    for i := 0 to |tuples|
      invariant selections == BasesOf(required, tuples)[..i]
    {
      selections := selections + [required + Flat(tuples[i])];
    }
  }

  /** The hard bases, or nothing when a category owes more than it can supply. */
  method ListBases(required: seq<Candidate>, optional: seq<Candidate>, ks: seq<Constraint>)
    returns (bases: Option<seq<seq<Candidate>>>, active: bool)
    requires DistinctIds(optional)
    ensures bases.Some? <==> Reachable(required, optional, ks)
    ensures bases.Some? ==> bases.value == BasesOf(required, Product(AllCombos(DeficitsOf(required, optional, ks))))
    ensures bases.Some? ==> (active <==> DeficitsOf(required, optional, ks) != [])
  {
    var ds := CategoryDeficits(required, optional, ks);
    if ds.None? { return None, false; }
    var lists := [];
    for i := 0 to |ds.value|
      invariant lists == AllCombos(ds.value)[..i]
    {
      var combos := Combos(ds.value[i]);
      lists := lists + [combos];
    }
    assert lists == AllCombos(ds.value);
    var tuples := Cartesian(lists);
    var joined := JoinAll(required, tuples);
    return Some(joined), ds.value != [];
  }

  lemma {:induction false} ActiveIffOwed(required: seq<Candidate>, optional: seq<Candidate>, ks: seq<Constraint>)
    ensures DeficitsOf(required, optional, ks) != [] <==> exists k :: k in ks && Needed(k, required) > 0
  {
    if ks != [] {
      var n := |ks| - 1;
      ActiveIffOwed(required, optional, ks[..n]);
      assert forall k :: k in ks <==> k in ks[..n] || k == ks[n];
      assert DeficitsOf(required, optional, ks) != [] <==> DeficitsOf(required, optional, ks[..n]) != [] || Needed(ks[n], required) > 0;
    }
  }

  lemma OneMorePicked(required: seq<Candidate>, pool: seq<Candidate>, ts: seq<seq<nat>>, i: nat)
    requires i < |ts| && InPool(pool, ts[i])
    ensures WithPicks(required, pool, ts)[..i + 1] == WithPicks(required, pool, ts)[..i] + [required + Picks(pool, ts[i])]
  {
  }

  lemma EachInPool(pool: seq<Candidate>, required: seq<Candidate>, constraints: seq<Constraint>, ts: seq<seq<nat>>)
    requires ts == ValidSelections(pool, required, constraints)
    ensures forall i :: 0 <= i < |ts| ==> InPool(pool, ts[i])
  {
    EachValidOnce(pool, required, constraints);
    forall i | 0 <= i < |ts| ensures InPool(pool, ts[i]) { assert ts[i] in ts; }
  }

  /** The yielded picks, each with the required candidates. */
  method Rescued(eligible: seq<Candidate>, constraints: seq<Constraint>) returns (selections: seq<seq<Candidate>>)
    requires DistinctIds(eligible) && WellFormedPolicy(constraints)
    ensures selections == RescueSelections(eligible, constraints)
  {
    var required, pool := RequiredIn(eligible), PoolOf(eligible);
    PoolSplits(eligible);
    var ts := PolicyValidOptionalSelections(pool, required, constraints);
    EachInPool(pool, required, constraints, ts);
    selections := [];
    for i := 0 to |ts|
      invariant selections == WithPicks(required, pool, ts)[..i]
    {
      OneMorePicked(required, pool, ts, i);
      selections := selections + [required + Picks(pool, ts[i])];
    }
  }

  // ---------- the search as a value ----------

  datatype Phase = Initial | Evicted | HardBase | PolicyRescue

  /** How a compilation ends; a selection is a list of blocks, or the set of their identifiers. */
  datatype Outcome<S> =
    | Settled(selection: S, renderedTokens: nat, phase: Phase)
    | SearchLimitExceeded
    | Exhausted(activeDeficit: bool)
    | Unmeasurable
    | Refused(refusal: Refusal)
    | InvalidResult

  function Named(o: Outcome<seq<Candidate>>): (named: Outcome<set<Text>>)
    ensures named.Settled? == o.Settled? && named.Refused? == o.Refused? && named.SearchLimitExceeded? == o.SearchLimitExceeded?
  {
    match o
    case Settled(s, tokens, phase) => Settled(Ids(s), tokens, phase)
    case SearchLimitExceeded => SearchLimitExceeded
    case Exhausted(active) => Exhausted(active)
    case Unmeasurable => Unmeasurable
    case Refused(refusal) => Refused(refusal)
    case InvalidResult => InvalidResult
  }

  datatype Searched = Searched(outcome: Outcome<set<Text>>, visited: set<set<Text>>)

  /** What a walk that did not reach its end means. */
  function Concluded(stop: Stop, phase: Phase): Outcome<set<Text>>
    requires !stop.Ended?
  {
    match stop
    case AtLimit => SearchLimitExceeded
    case AtFailure => Unmeasurable
    case AtFit(ids, tokens) => Settled(ids, tokens, phase)
  }

  /** Some category still owes blocks. */
  predicate IsActive(eligible: seq<Candidate>, constraints: seq<Constraint>) {
    DeficitsOf(RequiredIn(eligible), OptionalIn(eligible), Sort(CategoryAtMost, constraints)) != []
  }

  function AfterRescue(w: Walked, active: bool): Searched {
    Searched(if w.stop.Ended? then Exhausted(active) else Concluded(w.stop, PolicyRescue), w.visited)
  }

  function RescueOf(eligible: seq<Candidate>, constraints: seq<Constraint>, available: nat, max: nat, render: set<Text> -> Option<nat>, visited: set<set<Text>>): Searched {
    AfterRescue(Walk(available, max, render, KeysOf(RescueSelections(eligible, constraints)), visited), IsActive(eligible, constraints))
  }

  function AfterBases(eligible: seq<Candidate>, constraints: seq<Constraint>, available: nat, max: nat, render: set<Text> -> Option<nat>, w: Walked): Searched {
    if w.stop.Ended? then RescueOf(eligible, constraints, available, max, render, w.visited)
    else Searched(Concluded(w.stop, HardBase), w.visited)
  }

  /** The whole search: its outcome and the selections it visited. */
  function SearchOf(eligible: seq<Candidate>, constraints: seq<Constraint>, available: nat, max: nat, render: set<Text> -> Option<nat>): Searched {
    if max == 0 then Searched(SearchLimitExceeded, {})
    else if Shown(available, render, KeyOf(RequiredIn(eligible))) == Unmeasured then Searched(Unmeasurable, {Ids(RequiredIn(eligible))})
    else AfterBases(eligible, constraints, available, max, render,
      Walk(available, max, render, KeysOf(HardBases(eligible, constraints)), {Ids(RequiredIn(eligible))}))
  }

  // ---------- what there is to visit ----------

  /** The selections the policy allows. */
  function AllowedSets(eligible: seq<Candidate>, constraints: seq<Constraint>): set<set<Text>> {
    Sets(KeysOf(RescueSelections(eligible, constraints)))
  }

  /** Everything a search may ever visit: the required blocks alone, and what the policy allows. */
  function Visitable(eligible: seq<Candidate>, constraints: seq<Constraint>): set<set<Text>> {
    {Ids(RequiredIn(eligible))} + AllowedSets(eligible, constraints)
  }

  lemma {:induction false} SetsSize(keys: seq<Key>)
    ensures |Sets(keys)| <= |keys|
    decreases |keys|
  {
    if keys != [] {
      TailSets(keys);
      SetsSize(keys[1..]);
    }
  }

  /** A bound greater than the number of policy-valid selections covers everything. */
  lemma VisitableSize(eligible: seq<Candidate>, constraints: seq<Constraint>)
    ensures |Visitable(eligible, constraints)| <= |RescueSelections(eligible, constraints)| + 1
  {
    SetsSize(KeysOf(RescueSelections(eligible, constraints)));
  }

  /** A key of a selection the policy allows. */
  ghost predicate IsAllowedKey(eligible: seq<Candidate>, constraints: seq<Constraint>, key: Key) {
    MeetsPolicy(eligible, constraints, key.ids) && key.content == Content(eligible, key.ids)
  }

  lemma RescueKeys(eligible: seq<Candidate>, constraints: seq<Constraint>, key: Key)
    requires DistinctIds(eligible) && key in KeysOf(RescueSelections(eligible, constraints))
    ensures IsAllowedKey(eligible, constraints, key)
  {
    var selections := RescueSelections(eligible, constraints);
    var i :| 0 <= i < |selections| && KeysOf(selections)[i] == key;
    assert selections[i] in selections;
    YieldedIsAllowed(eligible, constraints, selections[i]);
  }

  lemma BaseKeys(eligible: seq<Candidate>, constraints: seq<Constraint>, available: nat, key: Key)
    requires DistinctIds(eligible) && WellFormedPolicy(constraints) && Feasible(eligible, constraints, available)
    requires key in KeysOf(HardBases(eligible, constraints))
    ensures IsAllowedKey(eligible, constraints, key)
  {
    var selections := HardBases(eligible, constraints);
    var i :| 0 <= i < |selections| && KeysOf(selections)[i] == key;
    assert selections[i] in selections;
    BasesAreAllowed(eligible, constraints, available, selections[i]);
  }

  /** The rescue names exactly what the policy allows. */
  lemma AllowedSetsAre(eligible: seq<Candidate>, constraints: seq<Constraint>, ids: set<Text>)
    requires DistinctIds(eligible)
    ensures ids in AllowedSets(eligible, constraints) <==> MeetsPolicy(eligible, constraints, ids)
    ensures MeetsPolicy(eligible, constraints, ids) ==> Key(ids, Content(eligible, ids)) in KeysOf(RescueSelections(eligible, constraints))
  {
    var selections := RescueSelections(eligible, constraints);
    var keys := KeysOf(selections);
    if ids in AllowedSets(eligible, constraints) {
      var key :| key in keys && key.ids == ids;
      RescueKeys(eligible, constraints, key);
    }
    if MeetsPolicy(eligible, constraints, ids) {
      AllowedIsYielded(eligible, constraints, ids);
      var s :| s in selections && IsSelection(eligible, s) && Ids(s) == ids;
      YieldedIsAllowed(eligible, constraints, s);
      var i :| 0 <= i < |selections| && selections[i] == s;
      assert keys[i] == Key(ids, Content(eligible, ids));
    }
  }

  lemma BasesVisitable(eligible: seq<Candidate>, constraints: seq<Constraint>, available: nat)
    requires DistinctIds(eligible) && WellFormedPolicy(constraints) && Feasible(eligible, constraints, available)
    ensures Sets(KeysOf(HardBases(eligible, constraints))) <= AllowedSets(eligible, constraints)
  {
    forall key | key in KeysOf(HardBases(eligible, constraints)) ensures key.ids in AllowedSets(eligible, constraints) {
      BaseKeys(eligible, constraints, available, key);
      AllowedSetsAre(eligible, constraints, key.ids);
    }
  }

  // ---------- what an outcome means ----------

  /** Every selection the policy and the content ceiling admit was measured over budget. */
  ghost predicate NoneFits(eligible: seq<Candidate>, constraints: seq<Constraint>, available: nat, render: set<Text> -> Option<nat>) {
    forall ids :: MeetsPolicy(eligible, constraints, ids) && !IsRuledOut(available, Content(eligible, ids)) ==>
      render(ids).Some? && render(ids).value > available
  }

  /** A selection the policy admits, rendered within the budget. */
  ghost predicate IsSettled(eligible: seq<Candidate>, constraints: seq<Constraint>, available: nat, render: set<Text> -> Option<nat>, ids: set<Text>, tokens: nat) {
    && MeetsPolicy(eligible, constraints, ids) && !IsRuledOut(available, Content(eligible, ids))
    && render(ids) == Some(tokens) && tokens <= available
  }

  ghost predicate IsAnswer(eligible: seq<Candidate>, constraints: seq<Constraint>, available: nat, render: set<Text> -> Option<nat>, o: Outcome<set<Text>>) {
    match o
    case Settled(ids, tokens, _) => IsSettled(eligible, constraints, available, render, ids, tokens)
    case Exhausted(active) =>
      && NoneFits(eligible, constraints, available, render)
      && (active <==> exists i :: 0 <= i < |constraints| && Needed(constraints[i], RequiredIn(eligible)) > 0)
    case Unmeasurable => exists ids :: ids <= Ids(eligible) && render(ids).None?
    case SearchLimitExceeded => true
    case _ => false
  }

  /** Which selection the fallback settles on. */
  ghost predicate IsFallbackChoice(eligible: seq<Candidate>, constraints: seq<Constraint>, available: nat, render: set<Text> -> Option<nat>, o: Outcome<set<Text>>) {
    match o
    case Settled(ids, tokens, HardBase) => IsFirstFit(KeysOf(HardBases(eligible, constraints)), available, render, ids, tokens)
    case Settled(ids, tokens, PolicyRescue) =>
      && (forall key :: key in KeysOf(HardBases(eligible, constraints)) ==> !Fits(available, render, key))
      && IsFirstFit(KeysOf(RescueSelections(eligible, constraints)), available, render, ids, tokens)
    case Settled(_, _, _) => false
    case _ => true
  }

  /** The limit is reported only with something left to visit, exhaustion only with nothing left. */
  ghost predicate IsBounded(eligible: seq<Candidate>, constraints: seq<Constraint>, max: nat, s: Searched) {
    && s.visited <= Visitable(eligible, constraints) && |s.visited| <= max
    && (s.outcome.SearchLimitExceeded? ==> |s.visited| == max && exists ids :: ids in Visitable(eligible, constraints) && ids !in s.visited)
    && (s.outcome.Exhausted? ==> s.visited == Visitable(eligible, constraints))
  }

  /** A walk over allowed keys that stops early does so for the reason it gives. */
  lemma WalkAnswers(eligible: seq<Candidate>, constraints: seq<Constraint>, available: nat, max: nat, render: set<Text> -> Option<nat>, keys: seq<Key>, w: Walked, phase: Phase)
    requires Explains(keys, available, max, render, w) && !w.stop.Ended?
    requires forall key :: key in keys ==> IsAllowedKey(eligible, constraints, key)
    ensures IsAnswer(eligible, constraints, available, render, Concluded(w.stop, phase))
  {
    match w.stop
    case AtFit(ids, tokens) =>
      var i :| 0 <= i < |keys| && keys[i].ids == ids && Fits(available, render, keys[i]) && render(ids) == Some(tokens);
      assert keys[i] in keys;
    case AtFailure =>
      var key :| key in keys && Shown(available, render, key) == Unmeasured;
      assert IsAllowedKey(eligible, constraints, key);
    case _ =>
  }

  /** When the rescue ends without a fit, nothing the policy allows fits. */
  lemma RescueExhausts(eligible: seq<Candidate>, constraints: seq<Constraint>, available: nat, max: nat, render: set<Text> -> Option<nat>, w: Walked)
    requires DistinctIds(eligible) && w.stop.Ended?
    requires Explains(KeysOf(RescueSelections(eligible, constraints)), available, max, render, w)
    ensures NoneFits(eligible, constraints, available, render) && AllowedSets(eligible, constraints) <= w.visited
  {
    var keys := KeysOf(RescueSelections(eligible, constraints));
    forall ids | MeetsPolicy(eligible, constraints, ids) && !IsRuledOut(available, Content(eligible, ids))
      ensures render(ids).Some? && render(ids).value > available
    {
      AllowedSetsAre(eligible, constraints, ids);
      var key := Key(ids, Content(eligible, ids));
      assert key in keys && !Fits(available, render, key) && Shown(available, render, key) != Unmeasured;
    }
  }

  lemma ActiveIs(eligible: seq<Candidate>, constraints: seq<Constraint>)
    requires WellFormedPolicy(constraints)
    ensures IsActive(eligible, constraints) <==> exists i :: 0 <= i < |constraints| && Needed(constraints[i], RequiredIn(eligible)) > 0
  {
    var ks := Sort(CategoryAtMost, constraints);
    ActiveIffOwed(RequiredIn(eligible), OptionalIn(eligible), ks);
    SortedConstraints(constraints);
    if i :| 0 <= i < |constraints| && Needed(constraints[i], RequiredIn(eligible)) > 0 { assert constraints[i] in ks; }
    if k :| k in ks && Needed(k, RequiredIn(eligible)) > 0 {
      var i :| 0 <= i < |constraints| && constraints[i] == k;
      assert Needed(constraints[i], RequiredIn(eligible)) > 0;
    }
  }

  ghost predicate SearchIsSound(eligible: seq<Candidate>, constraints: seq<Constraint>, available: nat, max: nat, render: set<Text> -> Option<nat>, s: Searched) {
    && IsAnswer(eligible, constraints, available, render, s.outcome)
    && IsFallbackChoice(eligible, constraints, available, render, s.outcome)
    && IsBounded(eligible, constraints, max, s)
  }

  /** A finished rescue has visited everything. */
  lemma FinishedIsSound(eligible: seq<Candidate>, constraints: seq<Constraint>, available: nat, max: nat, render: set<Text> -> Option<nat>, w: Walked)
    requires DistinctIds(eligible) && WellFormedPolicy(constraints) && w.stop.Ended?
    requires Explains(KeysOf(RescueSelections(eligible, constraints)), available, max, render, w)
    requires Ids(RequiredIn(eligible)) in w.visited && w.visited <= Visitable(eligible, constraints) && |w.visited| <= max
    ensures SearchIsSound(eligible, constraints, available, max, render, Searched(Exhausted(IsActive(eligible, constraints)), w.visited))
  {
    RescueExhausts(eligible, constraints, available, max, render, w);
    ActiveIs(eligible, constraints);
  }

  /** A rescue that stopped early did so for the reason it gives. */
  lemma StoppedIsSound(eligible: seq<Candidate>, constraints: seq<Constraint>, available: nat, max: nat, render: set<Text> -> Option<nat>, w: Walked)
    requires DistinctIds(eligible) && !w.stop.Ended?
    requires Explains(KeysOf(RescueSelections(eligible, constraints)), available, max, render, w)
    requires w.visited <= Visitable(eligible, constraints) && |w.visited| <= max
    requires forall key :: key in KeysOf(HardBases(eligible, constraints)) ==> !Fits(available, render, key)
    ensures SearchIsSound(eligible, constraints, available, max, render, Searched(Concluded(w.stop, PolicyRescue), w.visited))
  {
    var keys := KeysOf(RescueSelections(eligible, constraints));
    forall key | key in keys ensures IsAllowedKey(eligible, constraints, key) { RescueKeys(eligible, constraints, key); }
    WalkAnswers(eligible, constraints, available, max, render, keys, w, PolicyRescue);
    LimitLeaves(eligible, constraints, available, max, render, keys, w);
  }

  lemma RescueSound(eligible: seq<Candidate>, constraints: seq<Constraint>, available: nat, max: nat, render: set<Text> -> Option<nat>, visited: set<set<Text>>)
    requires DistinctIds(eligible) && WellFormedPolicy(constraints)
    requires Ids(RequiredIn(eligible)) in visited && visited <= Visitable(eligible, constraints) && |visited| <= max
    requires forall key :: key in KeysOf(HardBases(eligible, constraints)) ==> !Fits(available, render, key)
    ensures SearchIsSound(eligible, constraints, available, max, render, RescueOf(eligible, constraints, available, max, render, visited))
  {
    var keys := KeysOf(RescueSelections(eligible, constraints));
    var w := Walk(available, max, render, keys, visited);
    WalkExplains(available, max, render, keys, visited);
    WalkVisits(available, max, render, keys, visited);
    if w.stop.Ended? {
      FinishedIsSound(eligible, constraints, available, max, render, w);
    } else {
      StoppedIsSound(eligible, constraints, available, max, render, w);
    }
  }

  /** At the limit something the walk was given is unvisited. */
  lemma LimitLeaves(eligible: seq<Candidate>, constraints: seq<Constraint>, available: nat, max: nat, render: set<Text> -> Option<nat>, keys: seq<Key>, w: Walked)
    requires Explains(keys, available, max, render, w) && Sets(keys) <= AllowedSets(eligible, constraints)
    ensures w.stop.AtLimit? ==> |w.visited| == max && exists ids :: ids in Visitable(eligible, constraints) && ids !in w.visited
  {
    if w.stop.AtLimit? {
      var key :| key in keys && key.ids !in w.visited;
      assert key.ids in Sets(keys);
      assert key.ids in Visitable(eligible, constraints);
    }
  }

  lemma BasesSound(eligible: seq<Candidate>, constraints: seq<Constraint>, available: nat, max: nat, render: set<Text> -> Option<nat>)
    requires DistinctIds(eligible) && WellFormedPolicy(constraints) && Feasible(eligible, constraints, available) && max > 0
    ensures SearchIsSound(eligible, constraints, available, max, render, AfterBases(eligible, constraints, available, max, render,
      Walk(available, max, render, KeysOf(HardBases(eligible, constraints)), {Ids(RequiredIn(eligible))})))
  {
    var keys, start := KeysOf(HardBases(eligible, constraints)), {Ids(RequiredIn(eligible))};
    var w := Walk(available, max, render, keys, start);
    WalkExplains(available, max, render, keys, start);
    WalkVisits(available, max, render, keys, start);
    BasesVisitable(eligible, constraints, available);
    forall key | key in keys ensures IsAllowedKey(eligible, constraints, key) { BaseKeys(eligible, constraints, available, key); }
    if w.stop.Ended? {
      RescueSound(eligible, constraints, available, max, render, w.visited);
    } else {
      WalkAnswers(eligible, constraints, available, max, render, keys, w, HardBase);
      LimitLeaves(eligible, constraints, available, max, render, keys, w);
    }
  }

  lemma RequiredVisitable(eligible: seq<Candidate>, constraints: seq<Constraint>)
    ensures Ids(RequiredIn(eligible)) <= Ids(eligible) && Ids(RequiredIn(eligible)) in Visitable(eligible, constraints)
  {
  }

  /** Every outcome of the search means what it says, for an arbitrary tokenizer and every bound. */
  lemma SearchSound(eligible: seq<Candidate>, constraints: seq<Constraint>, available: nat, max: nat, render: set<Text> -> Option<nat>)
    requires DistinctIds(eligible) && WellFormedPolicy(constraints) && Feasible(eligible, constraints, available)
    ensures SearchIsSound(eligible, constraints, available, max, render, SearchOf(eligible, constraints, available, max, render))
  {
    RequiredVisitable(eligible, constraints);
    if max > 0 { BasesSound(eligible, constraints, available, max, render); }
  }

  /** The required blocks alone are measured first: where they cannot be, nothing else is tried. */
  lemma RequiredAreFirst(eligible: seq<Candidate>, constraints: seq<Constraint>, available: nat, max: nat, render: set<Text> -> Option<nat>)
    requires max > 0 && render(Ids(RequiredIn(eligible))).None?
    requires !(available < Total(RequiredIn(eligible), Tokens()) <= MAX_SAFE_INTEGER)
    ensures SearchOf(eligible, constraints, available, max, render) == Searched(Unmeasurable, {Ids(RequiredIn(eligible))})
  {
  }

  // ---------- the search ----------

  /** Searches the selections the policy allows: the required ones alone, the hard bases, then all others. */
  method SearchFallback(eligible: seq<Candidate>, constraints: seq<Constraint>, state: Search) returns (o: Outcome<seq<Candidate>>)
    requires DistinctIds(eligible) && WellFormedPolicy(constraints) && Feasible(eligible, constraints, state.available)
    requires state.Valid() && state.visited == {}
    modifies state
    ensures state.Valid()
    ensures Searched(Named(o), state.visited) == SearchOf(eligible, constraints, state.available, state.maxSelections, state.render)
    ensures SearchIsSound(eligible, constraints, state.available, state.maxSelections, state.render, Searched(Named(o), state.visited))
    ensures o.Settled? ==> IsSelection(eligible, o.selection)
  {
    SearchSound(eligible, constraints, state.available, state.maxSelections, state.render);
    var v := state.Visit(RequiredIn(eligible));
    if v.LimitReached? { return SearchLimitExceeded; }
    if v.Unmeasured? { return Unmeasurable; }
    // After a successful allocation no category owes more than it can supply.
    FeasibleIsCountable(eligible, constraints, state.available);
    PoolSplits(eligible);
    SplitMembers(eligible, RequiredIn(eligible), OptionalIn(eligible));
    var bases, active := ListBases(RequiredIn(eligible), OptionalIn(eligible), Sort(CategoryAtMost, constraints));
    var stop, selection := state.TryAll(bases.value);
    if !stop.Ended? {
      if stop.AtFit? { BasesAreAllowed(eligible, constraints, state.available, selection); }
      return FromStop(stop, selection, HardBase);
    }
    var rescued := Rescued(eligible, constraints);
    stop, selection := state.TryAll(rescued);
    if !stop.Ended? {
      if stop.AtFit? { YieldedIsAllowed(eligible, constraints, selection); }
      return FromStop(stop, selection, PolicyRescue);
    }
    return Exhausted(active);
  }

  function FromStop(stop: Stop, selection: seq<Candidate>, phase: Phase): (o: Outcome<seq<Candidate>>)
    requires !stop.Ended? && (stop.AtFit? ==> Ids(selection) == stop.ids)
    ensures Named(o) == Concluded(stop, phase) && (o.Settled? ==> o.selection == selection)
  {
    match stop
    case AtLimit => SearchLimitExceeded
    case AtFailure => Unmeasurable
    case AtFit(_, tokens) => Settled(selection, tokens, phase)
  }
}

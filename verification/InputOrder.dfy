/** A compilation does not depend on the order its candidates arrive in, nor on the order its policy
declares the constraints. */
module InputOrder {
  import opened Options
  import opened Utf16
  import opened Sorting
  import opened Subsets
  import opened Selections
  import opened Choices
  import opened Minimums
  import opened Allocation
  import opened BudgetAllocator
  import opened Rescue
  import opened Bases
  import opened Correction
  import opened Fallback
  import opened Compilation

  // ---------- the required blocks and the pool ----------

  lemma SameParts(eligible: seq<Candidate>, other: seq<Candidate>)
    requires DistinctIds(eligible) && multiset(eligible) == multiset(other)
    ensures DistinctIds(other) && multiset(RequiredIn(eligible)) == multiset(RequiredIn(other))
    ensures DistinctIds(OptionalIn(eligible)) && multiset(OptionalIn(eligible)) == multiset(OptionalIn(other))
  {
    RearrangedDistinct(eligible, other);
    PoolSplits(eligible);
    PoolSplits(other);
    SameSplit(eligible, RequiredIn(eligible), OptionalIn(eligible), RequiredIn(other), OptionalIn(other));
    KeepDistinct(eligible, IsOptional());
  }

  lemma SamePool(eligible: seq<Candidate>, other: seq<Candidate>)
    requires DistinctIds(eligible) && multiset(eligible) == multiset(other)
    ensures PoolOf(eligible) == PoolOf(other)
  {
    SameParts(eligible, other);
    RescueIsPreorder();
    RescueUntied(OptionalIn(eligible));
    SortOrderIndependent(RescueAtMost, OptionalIn(eligible), OptionalIn(other));
  }

  lemma RescueUntied(cs: seq<Candidate>)
    requires DistinctIds(cs)
    ensures Untied(RescueAtMost, cs)
  {
    AtMostIsTotalOrder();
    forall x, y | x in cs && y in cs && RescueAtMost(x, y) && RescueAtMost(y, x) ensures x == y {
      if x.category.Some? && y.category.Some? { LessTrichotomy(x.category.value, y.category.value); }
      SameIdSame(cs, x, y);
    }
  }

  lemma SameCount(a: seq<Candidate>, b: seq<Candidate>, category: Text)
    requires multiset(a) == multiset(b)
    ensures Count(a, category) == Count(b, category)
  {
    CountIsTotal(a, category);
    CountIsTotal(b, category);
    TotalPermutes(a, b, OfCategory(category));
  }

  /** A selection is visited under one key, however its required blocks are listed. */
  lemma SameKey(required: seq<Candidate>, other: seq<Candidate>, picks: seq<Candidate>)
    requires multiset(required) == multiset(other)
    ensures KeyOf(required + picks) == KeyOf(other + picks)
  {
    SameElements(required, other);
    SameIds(required, other, picks);
    assert multiset(required + picks) == multiset(other + picks);
    TotalPermutes(required + picks, other + picks, Tokens());
  }

  // ---------- the hard bases ----------

  lemma {:induction false} SameDeficits(required: seq<Candidate>, optional: seq<Candidate>, required': seq<Candidate>, optional': seq<Candidate>, ks: seq<Constraint>)
    requires DistinctIds(optional) && multiset(required) == multiset(required') && multiset(optional) == multiset(optional')
    ensures DeficitsOf(required, optional, ks) == DeficitsOf(required', optional', ks)
  {
    if ks != [] {
      var k := ks[|ks| - 1];
      SameDeficits(required, optional, required', optional', ks[..|ks| - 1]);
      SameCount(required, required', k.category);
      SamePreferred(optional, optional', k.category);
    }
  }

  lemma SameBaseKeys(required: seq<Candidate>, other: seq<Candidate>, tuples: seq<seq<seq<Candidate>>>)
    requires multiset(required) == multiset(other)
    ensures KeysOf(BasesOf(required, tuples)) == KeysOf(BasesOf(other, tuples))
  {
    var a, b := KeysOf(BasesOf(required, tuples)), KeysOf(BasesOf(other, tuples));
    forall i | 0 <= i < |tuples| ensures a[i] == b[i] { SameKey(required, other, Flat(tuples[i])); }
  }

  lemma SameHardKeys(eligible: seq<Candidate>, other: seq<Candidate>, constraints: seq<Constraint>, permuted: seq<Constraint>)
    requires DistinctIds(eligible) && multiset(eligible) == multiset(other)
    requires WellFormedPolicy(constraints) && multiset(constraints) == multiset(permuted)
    ensures KeysOf(HardBases(eligible, constraints)) == KeysOf(HardBases(other, permuted))
    ensures IsActive(eligible, constraints) == IsActive(other, permuted)
  {
    var ks := Sort(CategoryAtMost, constraints);
    SameParts(eligible, other);
    SameSortedConstraints(constraints, permuted);
    SameDeficits(RequiredIn(eligible), OptionalIn(eligible), RequiredIn(other), OptionalIn(other), ks);
    SameBaseKeys(RequiredIn(eligible), RequiredIn(other), Product(AllCombos(DeficitsOf(RequiredIn(eligible), OptionalIn(eligible), ks))));
  }

  // ---------- the rescue ----------

  lemma SameValid(required: seq<Candidate>, other: seq<Candidate>, picks: seq<Candidate>, constraints: seq<Constraint>, permuted: seq<Constraint>)
    requires multiset(required) == multiset(other) && SameConstraints(constraints, permuted)
    requires PolicyValid(required, picks, constraints)
    ensures PolicyValid(other, picks, permuted)
  {
    forall i | 0 <= i < |permuted|
      ensures Meets(permuted[i], Count(other, permuted[i].category) + Count(picks, permuted[i].category))
    {
      SameCount(required, other, permuted[i].category);
      assert permuted[i] in constraints;
      var j :| 0 <= j < |constraints| && constraints[j] == permuted[i];
    }
  }

  lemma {:induction false} SameFiltered(n: nat, ok: seq<nat> -> bool, same: seq<nat> -> bool, upTo: nat)
    requires forall t :: IsSubset(n, t) ==> ok(t) == same(t)
    ensures FilteredBySize(n, ok, upTo) == FilteredBySize(n, same, upTo)
  {
    if upTo > 0 {
      SameFiltered(n, ok, same, upTo - 1);
      SameFilter(n, ok, same, [], 0, upTo - 1);
    }
  }

  lemma SameValidSelections(pool: seq<Candidate>, required: seq<Candidate>, other: seq<Candidate>, constraints: seq<Constraint>, permuted: seq<Constraint>)
    requires multiset(required) == multiset(other) && SameConstraints(constraints, permuted)
    ensures ValidSelections(pool, required, constraints) == ValidSelections(pool, other, permuted)
  {
    forall t | IsSubset(|pool|, t) ensures Completes(pool, required, constraints)(t) == Completes(pool, other, permuted)(t) {
      if PolicyValid(required, Picks(pool, t), constraints) { SameValid(required, other, Picks(pool, t), constraints, permuted); }
      if PolicyValid(other, Picks(pool, t), permuted) { SameValid(other, required, Picks(pool, t), permuted, constraints); }
    }
    SameFiltered(|pool|, Completes(pool, required, constraints), Completes(pool, other, permuted), |pool| + 1);
  }

  lemma SamePickKeys(required: seq<Candidate>, other: seq<Candidate>, pool: seq<Candidate>, ts: seq<seq<nat>>)
    requires multiset(required) == multiset(other) && forall i :: 0 <= i < |ts| ==> InPool(pool, ts[i])
    ensures KeysOf(WithPicks(required, pool, ts)) == KeysOf(WithPicks(other, pool, ts))
  {
    var a, b := KeysOf(WithPicks(required, pool, ts)), KeysOf(WithPicks(other, pool, ts));
    forall i | 0 <= i < |ts| ensures a[i] == b[i] { SameKey(required, other, Picks(pool, ts[i])); }
  }

  lemma SameRescueKeys(eligible: seq<Candidate>, other: seq<Candidate>, constraints: seq<Constraint>, permuted: seq<Constraint>)
    requires DistinctIds(eligible) && multiset(eligible) == multiset(other)
    requires WellFormedPolicy(constraints) && multiset(constraints) == multiset(permuted)
    ensures KeysOf(RescueSelections(eligible, constraints)) == KeysOf(RescueSelections(other, permuted))
  {
    var pool, required := PoolOf(eligible), RequiredIn(eligible);
    SameParts(eligible, other);
    SamePool(eligible, other);
    SameSortedConstraints(constraints, permuted);
    SameValidSelections(pool, required, RequiredIn(other), constraints, permuted);
    EachValidOnce(pool, required, constraints);
    var ts := ValidSelections(pool, required, constraints);
    forall i | 0 <= i < |ts| ensures InPool(pool, ts[i]) { assert ts[i] in ts; }
    SamePickKeys(required, RequiredIn(other), pool, ts);
  }

  // ---------- the compilation ----------

  lemma SameAfterBases(eligible: seq<Candidate>, other: seq<Candidate>, constraints: seq<Constraint>, permuted: seq<Constraint>,
      available: nat, max: nat, render: set<Text> -> Option<nat>, w: Walked)
    requires KeysOf(RescueSelections(eligible, constraints)) == KeysOf(RescueSelections(other, permuted))
    requires IsActive(eligible, constraints) == IsActive(other, permuted)
    ensures AfterBases(eligible, constraints, available, max, render, w) == AfterBases(other, permuted, available, max, render, w)
  {
  }

  lemma SameSearch(eligible: seq<Candidate>, other: seq<Candidate>, constraints: seq<Constraint>, permuted: seq<Constraint>,
      available: nat, max: nat, render: set<Text> -> Option<nat>)
    requires DistinctIds(eligible) && multiset(eligible) == multiset(other)
    requires WellFormedPolicy(constraints) && multiset(constraints) == multiset(permuted)
    ensures SearchOf(eligible, constraints, available, max, render) == SearchOf(other, permuted, available, max, render)
  {
    SameProbe(eligible, other);
    SameHardKeys(eligible, other, constraints, permuted);
    SameRescueKeys(eligible, other, constraints, permuted);
    SameAfterBases(eligible, other, constraints, permuted, available, max, render,
      Walk(available, max, render, KeysOf(HardBases(eligible, constraints)), {Ids(RequiredIn(eligible))}));
  }

  lemma SameProbe(eligible: seq<Candidate>, other: seq<Candidate>)
    requires DistinctIds(eligible) && multiset(eligible) == multiset(other)
    ensures KeyOf(RequiredIn(eligible)) == KeyOf(RequiredIn(other)) && Ids(RequiredIn(eligible)) == Ids(RequiredIn(other))
  {
    SameParts(eligible, other);
    SameKey(RequiredIn(eligible), RequiredIn(other), []);
    assert RequiredIn(eligible) + [] == RequiredIn(eligible) && RequiredIn(other) + [] == RequiredIn(other);
  }

  lemma SameChecked(eligible: seq<Candidate>, other: seq<Candidate>, available: nat, s: Searched)
    requires multiset(eligible) == multiset(other)
    ensures Checked(eligible, available, s) == Checked(other, available, s)
  {
    if s.outcome.Settled? { TotalPermutes(eligible, other, Among(s.outcome.selection, Tokens())); }
  }

  lemma SameStart(eligible: seq<Candidate>, other: seq<Candidate>, constraints: seq<Constraint>, permuted: seq<Constraint>, available: nat)
    requires DistinctIds(eligible) && multiset(eligible) == multiset(other)
    requires WellFormedPolicy(constraints) && multiset(constraints) == multiset(permuted)
    ensures RefusalFor(eligible, constraints, available) == RefusalFor(other, permuted, available)
    ensures AllocatedIds(eligible, constraints, available) == AllocatedIds(other, permuted, available)
    ensures AllocatedOrder(eligible, constraints, available) == AllocatedOrder(other, permuted, available)
  {
    SameReservation(eligible, other, constraints, permuted);
    SameSelection(eligible, other, constraints, permuted, available);
    SameEvicted(eligible, other, constraints, permuted, SelectionOf(eligible, constraints, available));
  }

  /** Permuting the candidates and the constraints changes nothing a compilation answers: not a refusal with
  its issues or blocking candidate, not the published identifiers, their token count or phase, not any other
  end, and not the selections visited. */
  lemma InputOrderIrrelevant(eligible: seq<Candidate>, other: seq<Candidate>, constraints: seq<Constraint>, permuted: seq<Constraint>,
      available: nat, max: nat, render: set<Text> -> Option<nat>)
    requires DistinctIds(eligible) && multiset(eligible) == multiset(other)
    requires WellFormedPolicy(constraints) && multiset(constraints) == multiset(permuted)
    ensures CompileOf(eligible, constraints, available, max, render) == CompileOf(other, permuted, available, max, render)
  {
    SameStart(eligible, other, constraints, permuted, available);
    SameSearch(eligible, other, constraints, permuted, available, max, render);
    SameChecked(eligible, other, available, SettleOf(eligible, constraints, available, max, render,
      AllocatedIds(eligible, constraints, available), AllocatedOrder(eligible, constraints, available)));
  }
}

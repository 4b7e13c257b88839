/** The rescue enumeration as a whole: what the constraints leave open, the sizes worth walking, and the
walk over each size. */
module Rescue {
  import opened Options
  import opened Utf16
  import opened Sorting
  import opened Subsets
  import opened Selections

  // ---------- the order of the pool ----------

  /** Declared categories first, then by category and identifier. */
  predicate RescueAtMost(a: Candidate, b: Candidate) {
    if a.category.Some? && b.category.Some? then
      Less(a.category.value, b.category.value) || (a.category.value == b.category.value && AtMost(a.id, b.id))
    else if a.category.None? && b.category.None? then AtMost(a.id, b.id)
    else a.category.Some?
  }

  lemma RescueIsPreorder()
    ensures TotalPreorder(RescueAtMost)
  {
    AtMostIsTotalOrder();
    forall x, y ensures RescueAtMost(x, y) || RescueAtMost(y, x) {
      if x.category.Some? && y.category.Some? { LessTrichotomy(x.category.value, y.category.value); }
    }
    forall x, y, z | RescueAtMost(x, y) && RescueAtMost(y, z) ensures RescueAtMost(x, z) {
      if x.category.Some? && y.category.Some? && z.category.Some?
         && Less(x.category.value, y.category.value) && Less(y.category.value, z.category.value) {
        LessTransitive(x.category.value, y.category.value, z.category.value);
      }
    }
  }

  /** In that order the candidates of one category stand together. */
  lemma SortedIsGrouped(pool: seq<Candidate>)
    requires SortedBy(RescueAtMost, pool)
    ensures Grouped(pool)
  {
    forall i, j, k | 0 <= i < j < k < |pool| && pool[i].category.Some? && pool[i].category == pool[k].category
      ensures pool[j].category == pool[i].category
    {
      assert RescueAtMost(pool[i], pool[j]) && RescueAtMost(pool[j], pool[k]);
      if pool[j].category.Some? { LessTrichotomy(pool[i].category.value, pool[j].category.value); }
    }
  }

  // ---------- budgets ----------

  /** The first candidate of a category, or the end of the pool. */
  function StartOf(pool: seq<Candidate>, category: Text): (start: nat)
    ensures start <= |pool|
    ensures start < |pool| ==> pool[start].category == Some(category)
    ensures forall i :: 0 <= i < start ==> pool[i].category != Some(category)
  {
    if pool == [] then 0
    else
      var before := StartOf(pool[..|pool| - 1], category);
      if before < |pool| - 1 || pool[|pool| - 1].category == Some(category) then before else |pool|
  }

  lemma PrefixGrouped(pool: seq<Candidate>, n: nat)
    requires Grouped(pool) && n <= |pool|
    ensures Grouped(pool[..n])
  {
    var before := pool[..n];
    forall i, j, k | 0 <= i < j < k < n && before[i].category.Some? && before[i].category == before[k].category
      ensures before[j].category == before[i].category
    {
      assert pool[j].category == pool[i].category;
    }
  }

  /** In a grouped pool the members of a category fill one range. */
  lemma {:induction false} MembersFillRange(pool: seq<Candidate>, category: Text)
    requires Grouped(pool)
    ensures IsRangeOf(pool, category, StartOf(pool, category), StartOf(pool, category) + Count(pool, category))
    decreases |pool|
  {
    if pool != [] {
      var n := |pool| - 1;
      var before := pool[..n];
      PrefixGrouped(pool, n);
      MembersFillRange(before, category);
      var start, members := StartOf(before, category), Count(before, category);
      if pool[n].category == Some(category) && members > 0 {
        assert forall j :: start < j < n ==> pool[j].category == pool[start].category;
        assert forall j :: start <= j < n ==> before[j].category == Some(category);
      }
      assert forall i :: 0 <= i < n ==> before[i] == pool[i];
    }
  }

  /** No selection satisfies the policy, whatever is picked. */
  ghost predicate Hopeless(pool: seq<Candidate>, required: seq<Candidate>, constraints: seq<Constraint>) {
    forall t :: IsSubset(|pool|, t) ==> !PolicyValid(required, Picks(pool, t), constraints)
  }

  lemma CannotMeet(pool: seq<Candidate>, required: seq<Candidate>, constraints: seq<Constraint>, i: nat)
    requires i < |constraints| && Grouped(pool)
    requires var k := constraints[i]; var have := Count(required, k.category); var members := Count(pool, k.category);
      || (k.maxBlocks.Some? && k.maxBlocks.value < have)
      || (k.minBlocks.Some? && k.minBlocks.value > have + members)
      || (k.minBlocks.Some? && k.maxBlocks.Some? && k.minBlocks.value > k.maxBlocks.value)
    ensures Hopeless(pool, required, constraints)
  {
    var k := constraints[i];
    MembersFillRange(pool, k.category);
    var start := StartOf(pool, k.category);
    forall t | IsSubset(|pool|, t) ensures !PolicyValid(required, Picks(pool, t), constraints) {
      CountInRange(pool, t, 0, |pool|, k.category, start, start + Count(pool, k.category));
      assert !Meets(k, Count(required, k.category) + Count(Picks(pool, t), k.category));
    }
  }

  method CategoryBudgets(pool: seq<Candidate>, required: seq<Candidate>, constraints: seq<Constraint>)
    returns (budgets: Option<seq<Budget>>)
    requires Grouped(pool)
    ensures budgets.Some? ==> AreBudgets(pool, required, constraints, budgets.value)
    ensures budgets.None? ==> Hopeless(pool, required, constraints)
  {
    var out: seq<Budget> := [];
    for i := 0 to |constraints|
      invariant AreBudgets(pool, required, constraints[..i], out)
    {
      var k := constraints[i];
      var have := Count(required, k.category);
      if k.maxBlocks.Some? && k.maxBlocks.value < have {
        CannotMeet(pool, required, constraints, i);
        return None;
      }
      var capacity := if k.maxBlocks.None? then |pool| else k.maxBlocks.value - have;
      var deficit := if k.minBlocks.Some? && k.minBlocks.value > have then k.minBlocks.value - have else 0;
      var start := StartOf(pool, k.category);
      var members := Count(pool, k.category);
      MembersFillRange(pool, k.category);
      if deficit > members || deficit > capacity {
        CannotMeet(pool, required, constraints, i);
        return None;
      }
      var b := Budget(k.category, deficit, capacity, start, start + members);
      assert IsBudget(pool, required, k, b);
      assert constraints[..i + 1] == constraints[..i] + [k];
      out := out + [b];
    }
    assert constraints[..|constraints|] == constraints;
    return Some(out);
  }

  // ---------- sizes worth walking ----------

  function Deficits(bs: seq<Budget>): nat {
    if bs == [] then 0 else Deficits(bs[..|bs| - 1]) + bs[|bs| - 1].deficit
  }

  function Room(b: Budget): nat
    requires b.start <= b.end
  {
    if b.end - b.start < b.capacity then b.end - b.start else b.capacity
  }

  function Rooms(bs: seq<Budget>): nat
    requires forall i :: 0 <= i < |bs| ==> bs[i].start <= bs[i].end
  {
    if bs == [] then 0 else Rooms(bs[..|bs| - 1]) + Room(bs[|bs| - 1])
  }

  /** What the budgets count lies between the sum of the minimums and the sum of the room. */
  lemma {:induction false} TotalBetween(pool: seq<Candidate>, bs: seq<Budget>, t: seq<nat>)
    requires AreRanges(pool, bs) && IsSubset(|pool|, t) && WithinBudgets(bs, Picks(pool, t))
    ensures Deficits(bs) <= TotalCount(bs, Picks(pool, t)) <= Rooms(bs)
    decreases |bs|
  {
    if bs != [] {
      var n := |bs| - 1;
      var b := bs[n];
      assert forall i :: 0 <= i < n ==> WithinBudget(bs[i], Picks(pool, t));
      TotalBetween(pool, bs[..n], t);
      TotalLast(bs, Picks(pool, t));
      assert WithinBudget(b, Picks(pool, t));
      CountInRange(pool, t, 0, |pool|, b.category, b.start, b.end);
    }
  }

  lemma {:induction false} FreeGrows(bs: seq<Budget>, pool: seq<Candidate>, a: nat, b: nat)
    requires a <= b <= |pool|
    ensures Free(bs, pool[..a]) <= Free(bs, pool[..b])
    decreases b
  {
    if a < b {
      FreeGrows(bs, pool, a, b - 1);
      assert pool[..b][..b - 1] == pool[..b - 1];
    }
  }

  /** Picks hold no more unconstrained candidates than the pool. */
  lemma {:induction false} FreeOfPicks(bs: seq<Budget>, pool: seq<Candidate>, t: seq<nat>, to: nat)
    requires to <= |pool| && IsSubset(to, t)
    ensures Free(bs, Picks(pool, t)) <= Free(bs, pool[..to])
    decreases |t|
  {
    if t != [] {
      var n := |t| - 1;
      var last := t[n];
      FreeOfPicks(bs, pool, t[..n], last);
      assert Picks(pool, t)[..n] == Picks(pool, t[..n]);
      assert pool[..last + 1][..last] == pool[..last];
      FreeGrows(bs, pool, last + 1, to);
    }
  }

  /** No accepted subset has a size outside the bounds. */
  lemma SizesBounded(pool: seq<Candidate>, bs: seq<Budget>, t: seq<nat>)
    requires AreRanges(pool, bs) && IsSubset(|pool|, t) && WithinBudgets(bs, Picks(pool, t))
    ensures Deficits(bs) <= |t| <= Free(bs, pool) + Rooms(bs)
  {
    TotalBetween(pool, bs, t);
    TotalAndFree(bs, Picks(pool, t));
    FreeOfPicks(bs, pool, t, |pool|);
    assert pool[..|pool|] == pool;
  }

  // ---------- the whole enumeration ----------

  /** Picks that complete a policy-valid selection. */
  function Completes(pool: seq<Candidate>, required: seq<Candidate>, constraints: seq<Constraint>): seq<nat> -> bool {
    t => InPool(pool, t) && PolicyValid(required, Picks(pool, t), constraints)
  }

  /** The filtered power set of the pool. */
  function ValidSelections(pool: seq<Candidate>, required: seq<Candidate>, constraints: seq<Constraint>): seq<seq<nat>> {
    FilteredBySize(|pool|, Completes(pool, required, constraints), |pool| + 1)
  }

  lemma EmptySize(n: nat, ok: seq<nat> -> bool, size: nat)
    requires forall t :: IsSubset(n, t) && |t| == size ==> !ok(t)
    ensures Filtered(n, ok, [], 0, size) == []
  {
    forall t | Extends(n, [], 0, size, t) ensures !ok(t) { assert IsSubset(n, t); }
    NothingAccepted(n, ok, [], 0, size);
  }

  /** Sizes without accepted subsets add nothing. */
  lemma {:induction false} EmptySizes(n: nat, ok: seq<nat> -> bool, least: nat, end: nat)
    requires least <= end && forall t :: IsSubset(n, t) && least <= |t| < end ==> !ok(t)
    ensures FilteredBySize(n, ok, end) == FilteredBySize(n, ok, least)
    decreases end
  {
    if least < end {
      EmptySizes(n, ok, least, end - 1);
      EmptySize(n, ok, end - 1);
    }
  }

  /** Two conditions that agree on subsets keep the same ones. */
  lemma {:induction false} SameFilter(n: nat, ok: seq<nat> -> bool, same: seq<nat> -> bool, chosen: seq<nat>, from: nat, size: nat)
    requires IsPrefix(chosen, from) && from <= n && forall t :: IsSubset(n, t) ==> ok(t) == same(t)
    ensures Filtered(n, ok, chosen, from, size) == Filtered(n, same, chosen, from, size)
    decreases n - from
  {
    if |chosen| < size && from < n {
      SameFilter(n, ok, same, chosen + [from], from + 1, size);
      SameFilter(n, ok, same, chosen, from + 1, size);
    }
  }

  /** Walking one size by budgets is walking it by the policy. */
  lemma BudgetsFilter(pool: seq<Candidate>, required: seq<Candidate>, constraints: seq<Constraint>, bs: seq<Budget>, size: nat)
    requires AreBudgets(pool, required, constraints, bs)
    ensures Filtered(|pool|, Accepts(pool, bs), [], 0, size) == Filtered(|pool|, Completes(pool, required, constraints), [], 0, size)
  {
    forall t | IsSubset(|pool|, t) ensures Accepts(pool, bs)(t) == Completes(pool, required, constraints)(t) {
      SubsetIsSmall(|pool|, t);
      BudgetsDecide(pool, required, constraints, bs, Picks(pool, t));
    }
    SameFilter(|pool|, Accepts(pool, bs), Completes(pool, required, constraints), [], 0, size);
  }

  lemma BudgetsAreRanges(pool: seq<Candidate>, required: seq<Candidate>, constraints: seq<Constraint>, bs: seq<Budget>)
    requires AreBudgets(pool, required, constraints, bs) && DistinctCategories(constraints)
    ensures AreRanges(pool, bs)
  {
    forall i | 0 <= i < |bs| ensures IsRangeOf(pool, bs[i].category, bs[i].start, bs[i].end) && bs[i].category == constraints[i].category {
      assert IsBudget(pool, required, constraints[i], bs[i]);
    }
  }

  /** Sizes outside the bounds hold no valid selection. */
  lemma OutsideBounds(pool: seq<Candidate>, required: seq<Candidate>, constraints: seq<Constraint>, bs: seq<Budget>, t: seq<nat>)
    requires AreBudgets(pool, required, constraints, bs) && DistinctCategories(constraints) && IsSubset(|pool|, t)
    requires Completes(pool, required, constraints)(t)
    ensures AreRanges(pool, bs) && Deficits(bs) <= |t| <= Free(bs, pool) + Rooms(bs)
  {
    BudgetsAreRanges(pool, required, constraints, bs);
    SubsetIsSmall(|pool|, t);
    BudgetsDecide(pool, required, constraints, bs, Picks(pool, t));
    SizesBounded(pool, bs, t);
  }

  /** Past the largest accepted subset nothing is missing. */
  lemma CompleteFrom(n: nat, ok: seq<nat> -> bool, end: nat)
    requires forall t :: IsSubset(n, t) && ok(t) ==> |t| < end
    ensures FilteredBySize(n, ok, end) == FilteredBySize(n, ok, n + 1)
  {
    forall t | IsSubset(n, t) ensures |t| <= n { SubsetIsSmall(n, t); }
    if end <= n + 1 {
      EmptySizes(n, ok, end, n + 1);
    } else {
      EmptySizes(n, ok, n + 1, end);
    }
  }

  lemma HopelessYieldsNothing(pool: seq<Candidate>, required: seq<Candidate>, constraints: seq<Constraint>)
    requires Hopeless(pool, required, constraints)
    ensures ValidSelections(pool, required, constraints) == []
  {
    CompleteFrom(|pool|, Completes(pool, required, constraints), 0);
  }

  /** Only the sizes between the bounds need walking. */
  lemma WalkedSizesSuffice(pool: seq<Candidate>, required: seq<Candidate>, constraints: seq<Constraint>, bs: seq<Budget>, end: nat)
    requires AreBudgets(pool, required, constraints, bs) && DistinctCategories(constraints) && AreRanges(pool, bs)
    ensures FilteredBySize(|pool|, Completes(pool, required, constraints), Deficits(bs)) == []
    ensures end > Free(bs, pool) + Rooms(bs) ==>
      FilteredBySize(|pool|, Completes(pool, required, constraints), end) == ValidSelections(pool, required, constraints)
  {
    var ok := Completes(pool, required, constraints);
    forall t | IsSubset(|pool|, t) && ok(t) ensures Deficits(bs) <= |t| <= Free(bs, pool) + Rooms(bs) {
      OutsideBounds(pool, required, constraints, bs, t);
    }
    EmptySizes(|pool|, ok, 0, Deficits(bs));
    if end > Free(bs, pool) + Rooms(bs) { CompleteFrom(|pool|, ok, end); }
  }

  /** Every valid subset of one size, in lexicographic order. */
  method SubsetsOfSize(pool: seq<Candidate>, ghost required: seq<Candidate>, ghost constraints: seq<Constraint>, bs: seq<Budget>, size: nat)
    returns (found: seq<seq<nat>>)
    requires AreBudgets(pool, required, constraints, bs) && DistinctCategories(constraints)
    ensures found == Filtered(|pool|, Completes(pool, required, constraints), [], 0, size)
  {
    BudgetsAreRanges(pool, required, constraints, bs);
    var walker := new Walker(pool, bs, size);
    walker.Walk(0);
    BudgetsFilter(pool, required, constraints, bs, size);
    found := walker.yielded;
  }

  /** Every optional subset that completes a policy-valid selection, smaller first. */
  method PolicyValidOptionalSelections(pool: seq<Candidate>, required: seq<Candidate>, constraints: seq<Constraint>)
    returns (yielded: seq<seq<nat>>)
    requires Grouped(pool) && DistinctCategories(constraints)
    ensures yielded == ValidSelections(pool, required, constraints)
  {
    var budgets := CategoryBudgets(pool, required, constraints);
    if budgets.None? {
      HopelessYieldsNothing(pool, required, constraints);
      return [];
    }
    var bs := budgets.value;
    BudgetsAreRanges(pool, required, constraints, bs);
    yielded := [];
    var size, most := Deficits(bs), Free(bs, pool) + Rooms(bs);
    WalkedSizesSuffice(pool, required, constraints, bs, size);
    while size <= most
      invariant yielded == FilteredBySize(|pool|, Completes(pool, required, constraints), size)
    {
      var found := SubsetsOfSize(pool, required, constraints, bs, size);
      yielded := yielded + found;
      size := size + 1;
    }
    WalkedSizesSuffice(pool, required, constraints, bs, size);
  }

  /** The enumeration lists exactly the picks that complete a policy-valid selection, each once, by size and
  then in lexicographic order of positions. */
  lemma EachValidOnce(pool: seq<Candidate>, required: seq<Candidate>, constraints: seq<Constraint>)
    ensures var all := ValidSelections(pool, required, constraints);
      && Ordered(all)
      && (forall i, j :: 0 <= i < j < |all| ==> all[i] != all[j])
      && forall t :: t in all <==> IsSubset(|pool|, t) && PolicyValid(required, Picks(pool, t), constraints)
  {
    var ok := Completes(pool, required, constraints);
    FilteredBySizeFacts(|pool|, ok, |pool| + 1);
    var all := ValidSelections(pool, required, constraints);
    forall i, j | 0 <= i < j < |all| ensures all[i] != all[j] {
      assert Before(all[i], all[j]);
      BeforeIsStrict(all[i]);
    }
    forall t | IsSubset(|pool|, t) ensures |t| <= |pool| { SubsetIsSmall(|pool|, t); }
  }
}

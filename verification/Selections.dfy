/** The policy-valid selections of a compilation, enumerated without building an invalid one.

A selection is the required candidates together with some of the pool, named by position.  Categories
bound how many of their candidates a selection holds.
*/
module Selections {
  import opened Options
  import opened Utf16
  import opened Subsets

  datatype Candidate = Candidate(id: Text, category: Option<Text>, tokens: nat, score: real, required: bool)

  datatype Constraint = Constraint(category: Text, minBlocks: Option<nat>, maxBlocks: Option<nat>)

  function Count(cs: seq<Candidate>, category: Text): nat {
    if cs == [] then 0
    else Count(cs[..|cs| - 1], category) + if cs[|cs| - 1].category == Some(category) then 1 else 0
  }

  function Picks(pool: seq<Candidate>, t: seq<nat>): (cs: seq<Candidate>)
    requires forall i :: 0 <= i < |t| ==> t[i] < |pool|
    ensures |cs| == |t| && forall i :: 0 <= i < |t| ==> cs[i] == pool[t[i]]
  {
    seq(|t|, i requires 0 <= i < |t| => pool[t[i]])
  }

  /** The number of a category's blocks in a selection lies within its bounds. */
  predicate Meets(k: Constraint, blocks: nat) {
    && (k.minBlocks.Some? ==> k.minBlocks.value <= blocks)
    && (k.maxBlocks.Some? ==> blocks <= k.maxBlocks.value)
  }

  /** The required candidates with these picks satisfy every constraint. */
  predicate PolicyValid(required: seq<Candidate>, picks: seq<Candidate>, constraints: seq<Constraint>) {
    forall i :: 0 <= i < |constraints| ==>
      Meets(constraints[i], Count(required, constraints[i].category) + Count(picks, constraints[i].category))
  }

  ghost predicate DistinctCategories(constraints: seq<Constraint>) {
    forall i, j :: 0 <= i < j < |constraints| ==> constraints[i].category != constraints[j].category
  }

  /** Candidates of one category stand together. */
  ghost predicate Grouped(pool: seq<Candidate>) {
    forall i, j, k :: 0 <= i < j < k < |pool| && pool[i].category.Some? && pool[i].category == pool[k].category ==>
      pool[j].category == pool[i].category
  }

  // ---------- counting ----------

  lemma {:induction false} CountConcat(a: seq<Candidate>, b: seq<Candidate>, category: Text)
    ensures Count(a + b, category) == Count(a, category) + Count(b, category)
  {
    if b == [] {
      assert a + b == a;
    } else {
      var n := |b| - 1;
      CountConcat(a, b[..n], category);
      assert (a + b)[..|a + b| - 1] == a + b[..n] && (a + b)[|a + b| - 1] == b[n];
    }
  }

  lemma {:induction false} CountAtMostAll(cs: seq<Candidate>, category: Text)
    ensures Count(cs, category) <= |cs|
  {
    if cs != [] { CountAtMostAll(cs[..|cs| - 1], category); }
  }

  // ---------- what the constraints leave open ----------

  /** What the picks must still supply of a category, may take of it at most, and where it stands in the
  pool. */
  datatype Budget = Budget(category: Text, deficit: nat, capacity: nat, start: nat, end: nat)

  ghost predicate IsRangeOf(pool: seq<Candidate>, category: Text, start: nat, end: nat) {
    start <= end <= |pool| && forall i :: 0 <= i < |pool| ==> (start <= i < end <==> pool[i].category == Some(category))
  }

  ghost predicate IsBudget(pool: seq<Candidate>, required: seq<Candidate>, k: Constraint, b: Budget) {
    var have := Count(required, k.category);
    && b.category == k.category
    && b.deficit == (if k.minBlocks.Some? && k.minBlocks.value > have then k.minBlocks.value - have else 0)
    && (if k.maxBlocks.Some? then have + b.capacity == k.maxBlocks.value else b.capacity == |pool|)
    && IsRangeOf(pool, k.category, b.start, b.end)
  }

  ghost predicate AreBudgets(pool: seq<Candidate>, required: seq<Candidate>, constraints: seq<Constraint>, bs: seq<Budget>) {
    |bs| == |constraints| && forall i :: 0 <= i < |bs| ==> IsBudget(pool, required, constraints[i], bs[i])
  }

  predicate WithinBudget(b: Budget, picks: seq<Candidate>) { b.deficit <= Count(picks, b.category) <= b.capacity }

  predicate WithinBudgets(bs: seq<Budget>, picks: seq<Candidate>) {
    forall i :: 0 <= i < |bs| ==> WithinBudget(bs[i], picks)
  }

  /** Budgets say about picks from the pool what the policy says about the whole selection. */
  lemma BudgetsDecide(pool: seq<Candidate>, required: seq<Candidate>, constraints: seq<Constraint>, bs: seq<Budget>, picks: seq<Candidate>)
    requires AreBudgets(pool, required, constraints, bs) && |picks| <= |pool|
    ensures WithinBudgets(bs, picks) <==> PolicyValid(required, picks, constraints)
  {
    forall i | 0 <= i < |bs|
      ensures WithinBudget(bs[i], picks) <==>
        Meets(constraints[i], Count(required, constraints[i].category) + Count(picks, constraints[i].category))
    {
      assert IsBudget(pool, required, constraints[i], bs[i]);
      CountAtMostAll(picks, bs[i].category);
    }
    if PolicyValid(required, picks, constraints) {
      forall i | 0 <= i < |bs| ensures WithinBudget(bs[i], picks) {
        assert Meets(constraints[i], Count(required, constraints[i].category) + Count(picks, constraints[i].category));
      }
    }
  }

  /** Increasing positions in `[from, to)` hold no more of a category than its range does. */
  lemma {:induction false} CountInRange(pool: seq<Candidate>, t: seq<nat>, from: nat, to: nat, category: Text, start: nat, end: nat)
    requires IsRangeOf(pool, category, start, end) && to <= |pool| && Increasing(t)
    requires forall i :: 0 <= i < |t| ==> from <= t[i] < to
    ensures Count(Picks(pool, t), category) <= Overlap(from, to, start, end)
    decreases |t|
  {
    if t != [] {
      var n := |t| - 1;
      var last := t[n];
      assert Picks(pool, t)[..n] == Picks(pool, t[..n]);
      CountInRange(pool, t[..n], from, last, category, start, end);
    }
  }

  /** How many positions two ranges share. */
  function Overlap(a: nat, b: nat, c: nat, d: nat): nat {
    var lo, hi := if a > c then a else c, if b < d then b else d;
    if lo < hi then hi - lo else 0
  }

  // ---------- sums over categories ----------

  function TotalCount(bs: seq<Budget>, picks: seq<Candidate>): nat {
    if bs == [] then 0 else Count(picks, bs[0].category) + TotalCount(bs[1..], picks)
  }

  function Belongs(bs: seq<Budget>, c: Candidate): bool { exists i :: 0 <= i < |bs| && c.category == Some(bs[i].category) }

  ghost predicate DistinctBudgets(bs: seq<Budget>) {
    forall i, j :: 0 <= i < j < |bs| ==> bs[i].category != bs[j].category
  }

  /** The picks no budget counts. */
  function Free(bs: seq<Budget>, picks: seq<Candidate>): nat {
    if picks == [] then 0 else Free(bs, picks[..|picks| - 1]) + if Belongs(bs, picks[|picks| - 1]) then 0 else 1
  }

  lemma {:induction false} TotalOfNone(bs: seq<Budget>)
    ensures TotalCount(bs, []) == 0
  {
    if bs != [] { TotalOfNone(bs[1..]); }
  }

  /** One more pick is counted by one budget at most. */
  lemma {:induction false} TotalStep(bs: seq<Budget>, picks: seq<Candidate>, c: Candidate)
    requires DistinctBudgets(bs)
    ensures TotalCount(bs, picks + [c]) == TotalCount(bs, picks) + if Belongs(bs, c) then 1 else 0
  {
    if bs != [] {
      var rest := bs[1..];
      TotalStep(rest, picks, c);
      assert (picks + [c])[..|picks|] == picks;
      assert forall i :: 1 <= i < |bs| ==> bs[i] == rest[i - 1];
      if c.category == Some(bs[0].category) {
        assert forall i :: 0 <= i < |rest| ==> rest[i] == bs[i + 1];
      } else if Belongs(bs, c) {
        var i :| 0 <= i < |bs| && c.category == Some(bs[i].category);
        assert rest[i - 1] == bs[i];
      } else {
        assert forall i :: 0 <= i < |rest| ==> rest[i] == bs[i + 1];
      }
    }
  }

  /** Every pick is counted by exactly one budget, or by none. */
  lemma {:induction false} TotalAndFree(bs: seq<Budget>, picks: seq<Candidate>)
    requires DistinctBudgets(bs)
    ensures TotalCount(bs, picks) + Free(bs, picks) == |picks|
  {
    if picks == [] {
      TotalOfNone(bs);
    } else {
      var n := |picks| - 1;
      TotalAndFree(bs, picks[..n]);
      TotalStep(bs, picks[..n], picks[n]);
      assert picks == picks[..n] + [picks[n]];
    }
  }

  // ---------- what need not be walked ----------

  predicate InPool(pool: seq<Candidate>, t: seq<nat>) { forall i :: 0 <= i < |t| ==> t[i] < |pool| }

  /** Positions whose candidates keep every budget. */
  function Accepts(pool: seq<Candidate>, bs: seq<Budget>): seq<nat> -> bool {
    t => InPool(pool, t) && WithinBudgets(bs, Picks(pool, t))
  }

  lemma NothingAccepted(n: nat, ok: seq<nat> -> bool, chosen: seq<nat>, from: nat, size: nat)
    requires IsPrefix(chosen, from) && forall t :: Extends(n, chosen, from, size, t) ==> !ok(t)
    ensures Filtered(n, ok, chosen, from, size) == []
  {
    var all := Filtered(n, ok, chosen, from, size);
    if all != [] { FilteredMembers(n, ok, chosen, from, size, all[0]); }
  }

  lemma {:induction false} IncreasingFits(t: seq<nat>, from: nat, to: nat)
    requires Increasing(t) && from <= to && forall i :: 0 <= i < |t| ==> from <= t[i] < to
    ensures |t| <= to - from
    decreases |t|
  {
    if t != [] { IncreasingFits(t[..|t| - 1], from, t[|t| - 1]); }
  }

  /** The part of an extension that is still to be chosen. */
  lemma RestOf(pool: seq<Candidate>, chosen: seq<nat>, from: nat, size: nat, t: seq<nat>)
    requires InPool(pool, chosen) && from <= |pool| && Extends(|pool|, chosen, from, size, t)
    ensures var rest := t[|chosen|..];
      && InPool(pool, t) && InPool(pool, rest) && Increasing(rest) && |rest| == size - |chosen| <= |pool| - from
      && (forall i :: 0 <= i < |rest| ==> from <= rest[i] < |pool|)
      && Picks(pool, t) == Picks(pool, chosen) + Picks(pool, rest)
  {
    var rest := t[|chosen|..];
    assert forall i :: 0 <= i < |chosen| ==> t[i] == t[..|chosen|][i];
    IncreasingFits(rest, from, |pool|);
  }

  /** Not enough candidates left to fill the remaining slots. */
  lemma PruneRoom(pool: seq<Candidate>, bs: seq<Budget>, chosen: seq<nat>, from: nat, size: nat)
    requires InPool(pool, chosen) && IsPrefix(chosen, from) && from <= |pool| && |pool| - from < size - |chosen|
    ensures Filtered(|pool|, Accepts(pool, bs), chosen, from, size) == []
  {
    forall t ensures !Extends(|pool|, chosen, from, size, t) {
      if Extends(|pool|, chosen, from, size, t) { RestOf(pool, chosen, from, size, t); }
    }
    NothingAccepted(|pool|, Accepts(pool, bs), chosen, from, size);
  }

  function Unmet(b: Budget, picks: seq<Candidate>): nat {
    if b.deficit > Count(picks, b.category) then b.deficit - Count(picks, b.category) else 0
  }

  /** Not enough candidates of one category ahead to cover its own minimum. */
  lemma PruneMembers(pool: seq<Candidate>, bs: seq<Budget>, chosen: seq<nat>, from: nat, size: nat, i: nat)
    requires InPool(pool, chosen) && IsPrefix(chosen, from) && from <= |pool| && i < |bs|
    requires IsRangeOf(pool, bs[i].category, bs[i].start, bs[i].end)
    requires Overlap(from, |pool|, bs[i].start, bs[i].end) < Unmet(bs[i], Picks(pool, chosen))
    ensures Filtered(|pool|, Accepts(pool, bs), chosen, from, size) == []
  {
    var b := bs[i];
    forall t | Extends(|pool|, chosen, from, size, t) ensures !Accepts(pool, bs)(t) {
      RestOf(pool, chosen, from, size, t);
      CountConcat(Picks(pool, chosen), Picks(pool, t[|chosen|..]), b.category);
      CountInRange(pool, t[|chosen|..], from, |pool|, b.category, b.start, b.end);
      assert !WithinBudget(b, Picks(pool, t));
    }
    NothingAccepted(|pool|, Accepts(pool, bs), chosen, from, size);
  }

  function Owed(bs: seq<Budget>, picks: seq<Candidate>): nat {
    if bs == [] then 0 else Owed(bs[..|bs| - 1], picks) + Unmet(bs[|bs| - 1], picks)
  }

  lemma {:induction false} OwedIsCovered(bs: seq<Budget>, picks: seq<Candidate>, rest: seq<Candidate>)
    requires DistinctBudgets(bs) && WithinBudgets(bs, picks + rest)
    ensures Owed(bs, picks) <= TotalCount(bs, rest)
  {
    if bs != [] {
      var n := |bs| - 1;
      assert forall i :: 0 <= i < n ==> WithinBudget(bs[i], picks + rest);
      OwedIsCovered(bs[..n], picks, rest);
      CountConcat(picks, rest, bs[n].category);
      assert WithinBudget(bs[n], picks + rest);
      TotalLast(bs, rest);
    }
  }

  lemma {:induction false} TotalLast(bs: seq<Budget>, picks: seq<Candidate>)
    requires bs != []
    ensures TotalCount(bs, picks) == TotalCount(bs[..|bs| - 1], picks) + Count(picks, bs[|bs| - 1].category)
  {
    if |bs| > 1 {
      TotalLast(bs[1..], picks);
      assert bs[1..][..|bs| - 2] == bs[..|bs| - 1][1..];
    }
  }

  /** Not enough slots left to cover every unmet minimum. */
  lemma PruneOwed(pool: seq<Candidate>, bs: seq<Budget>, chosen: seq<nat>, from: nat, size: nat)
    requires InPool(pool, chosen) && IsPrefix(chosen, from) && from <= |pool| && |chosen| <= size && DistinctBudgets(bs)
    requires Owed(bs, Picks(pool, chosen)) > size - |chosen|
    ensures Filtered(|pool|, Accepts(pool, bs), chosen, from, size) == []
  {
    forall t | Extends(|pool|, chosen, from, size, t) ensures !Accepts(pool, bs)(t) {
      RestOf(pool, chosen, from, size, t);
      var rest := Picks(pool, t[|chosen|..]);
      TotalAndFree(bs, rest);
      if WithinBudgets(bs, Picks(pool, t)) { OwedIsCovered(bs, Picks(pool, chosen), rest); }
    }
    NothingAccepted(|pool|, Accepts(pool, bs), chosen, from, size);
  }

  lemma OverCapacity(b: Budget, picks: seq<Candidate>, rest: seq<Candidate>)
    requires Count(picks, b.category) > b.capacity
    ensures !WithinBudget(b, picks + rest)
  {
    CountConcat(picks, rest, b.category);
  }

  lemma OverfullExtension(pool: seq<Candidate>, bs: seq<Budget>, chosen: seq<nat>, from: nat, size: nat, i: nat, t: seq<nat>)
    requires InPool(pool, chosen) && from <= |pool| && Extends(|pool|, chosen, from, size, t) && i < |bs|
    requires Count(Picks(pool, chosen), bs[i].category) > bs[i].capacity
    ensures !Accepts(pool, bs)(t)
  {
    RestOf(pool, chosen, from, size, t);
    OverCapacity(bs[i], Picks(pool, chosen), Picks(pool, t[|chosen|..]));
  }

  /** A category that is full takes no more. */
  lemma PruneFull(pool: seq<Candidate>, bs: seq<Budget>, chosen: seq<nat>, index: nat, size: nat, i: nat)
    requires InPool(pool, chosen) && IsPrefix(chosen, index) && index < |pool| && i < |bs|
    requires pool[index].category == Some(bs[i].category) && Count(Picks(pool, chosen), bs[i].category) >= bs[i].capacity
    ensures Filtered(|pool|, Accepts(pool, bs), chosen + [index], index + 1, size) == []
  {
    var more := chosen + [index];
    PickedOne(pool, chosen, index, bs[i].category);
    forall t | Extends(|pool|, more, index + 1, size, t) ensures !Accepts(pool, bs)(t) {
      OverfullExtension(pool, bs, more, index + 1, size, i, t);
    }
    NothingAccepted(|pool|, Accepts(pool, bs), more, index + 1, size);
  }

  lemma PickedOne(pool: seq<Candidate>, chosen: seq<nat>, index: nat, category: Text)
    requires InPool(pool, chosen) && index < |pool|
    ensures InPool(pool, chosen + [index]) && Picks(pool, chosen + [index]) == Picks(pool, chosen) + [pool[index]]
    ensures Count(Picks(pool, chosen + [index]), category) ==
      Count(Picks(pool, chosen), category) + if pool[index].category == Some(category) then 1 else 0
  {
    var cs := Picks(pool, chosen) + [pool[index]];
    assert Picks(pool, chosen + [index]) == cs && cs[..|chosen|] == Picks(pool, chosen);
  }

  // ---------- the walk ----------

  /** The budget of a category, if it has one. */
  function Find(bs: seq<Budget>, category: Option<Text>): (i: Option<nat>)
    ensures i.Some? ==> i.value < |bs| && category == Some(bs[i.value].category)
    ensures i.None? ==> forall j :: 0 <= j < |bs| ==> category != Some(bs[j].category)
  {
    if bs == [] then None
    else if category == Some(bs[|bs| - 1].category) then Some(|bs| - 1)
    else Find(bs[..|bs| - 1], category)
  }

  /** Budgets for different categories, each with its range of the pool. */
  ghost predicate AreRanges(pool: seq<Candidate>, bs: seq<Budget>) {
    && DistinctBudgets(bs)
    && forall i :: 0 <= i < |bs| ==> IsRangeOf(pool, bs[i].category, bs[i].start, bs[i].end)
  }

  function Counted(counts: map<Text, nat>, category: Text): nat {
    if category in counts then counts[category] else 0
  }

  /** The counters count what is chosen, and no budget is exceeded. */
  ghost predicate Counts(bs: seq<Budget>, counts: map<Text, nat>, picks: seq<Candidate>) {
    forall i :: 0 <= i < |bs| ==> Counted(counts, bs[i].category) == Count(picks, bs[i].category) <= bs[i].capacity
  }

  function Raised(counts: map<Text, nat>, bs: seq<Budget>, budget: Option<nat>): map<Text, nat>
    requires budget.Some? ==> budget.value < |bs|
  {
    if budget.None? then counts
    else counts[bs[budget.value].category := Counted(counts, bs[budget.value].category) + 1]
  }

  function Lowered(counts: map<Text, nat>, bs: seq<Budget>, budget: Option<nat>): map<Text, nat>
    requires budget.Some? ==> budget.value < |bs| && Counted(counts, bs[budget.value].category) > 0
  {
    if budget.None? then counts
    else counts[bs[budget.value].category := Counted(counts, bs[budget.value].category) - 1]
  }

  lemma CountRaised(bs: seq<Budget>, counts: map<Text, nat>, picks: seq<Candidate>, c: Candidate)
    requires DistinctBudgets(bs) && Counts(bs, counts, picks)
    requires var budget := Find(bs, c.category); budget.Some? ==> Counted(counts, bs[budget.value].category) < bs[budget.value].capacity
    ensures Counts(bs, Raised(counts, bs, Find(bs, c.category)), picks + [c])
  {
    assert (picks + [c])[..|picks|] == picks;
  }

  lemma CountLowered(bs: seq<Budget>, counts: map<Text, nat>, picks: seq<Candidate>, c: Candidate)
    requires DistinctBudgets(bs) && Counts(bs, counts, picks + [c])
    ensures var budget := Find(bs, c.category);
      && (budget.Some? ==> Counted(counts, bs[budget.value].category) > 0)
      && Counts(bs, Lowered(counts, bs, budget), picks)
  {
    assert (picks + [c])[..|picks|] == picks;
    var budget := Find(bs, c.category);
    if budget.Some? {
      assert Counted(counts, bs[budget.value].category) == Count(picks + [c], bs[budget.value].category);
    }
    forall i | 0 <= i < |bs|
      ensures Count(picks + [c], bs[i].category) == Count(picks, bs[i].category) + if c.category == Some(bs[i].category) then 1 else 0
      ensures Counted(counts, bs[i].category) == Count(picks + [c], bs[i].category)
    {
    }
  }

  /** The shared state of one walk over the subsets of one size. */
  class Walker {
    const pool: seq<Candidate>
    const budgets: seq<Budget>
    const size: nat
    var chosen: seq<nat>
    var counts: map<Text, nat>
    var yielded: seq<seq<nat>>

    constructor (pool: seq<Candidate>, budgets: seq<Budget>, size: nat)
      requires AreRanges(pool, budgets)
      ensures this.pool == pool && this.budgets == budgets && this.size == size
      ensures Valid(0) && chosen == [] && yielded == []
    {
      this.pool, this.budgets, this.size := pool, budgets, size;
      chosen, counts, yielded := [], map[], [];
    }

    function CountOf(category: Text): nat
      reads this
    {
      Counted(counts, category)
    }

    /** `chosen` lists positions below `from`, and the counters are right. */
    ghost predicate Valid(from: nat)
      reads this
    {
      && AreRanges(pool, budgets) && InPool(pool, chosen) && IsPrefix(chosen, from) && |chosen| <= size
      && Counts(budgets, counts, Picks(pool, chosen))
    }

    ghost function Remaining(from: nat): seq<seq<nat>>
      reads this
    {
      Filtered(|pool|, Accepts(pool, budgets), chosen, from, size)
    }

    /** A complete subset still has to satisfy every minimum. */
    method IsSatisfied() returns (satisfied: bool)
      requires Valid(|pool|)
      ensures satisfied == Accepts(pool, budgets)(chosen)
    {
      for i := 0 to |budgets|
        invariant forall j :: 0 <= j < i ==> WithinBudget(budgets[j], Picks(pool, chosen))
      {
        if CountOf(budgets[i].category) < budgets[i].deficit {
          assert !WithinBudget(budgets[i], Picks(pool, chosen));
          return false;
        }
      }
      return true;
    }

    /** Whether the remaining slots, or the candidates ahead, cannot cover what the minimums still need. */
    method IsUnreachable(from: nat) returns (dead: bool)
      requires Valid(from) && from <= |pool|
      ensures dead ==> Remaining(from) == []
    {
      var remaining := size - |chosen|;
      if |pool| - from < remaining {
        PruneRoom(pool, budgets, chosen, from, size);
        return true;
      }
      var owed := 0;
      for i := 0 to |budgets|
        invariant owed == Owed(budgets[..i], Picks(pool, chosen))
      {
        var b := budgets[i];
        assert budgets[..i + 1][..i] == budgets[..i];
        if b.deficit > CountOf(b.category) {
          var unmet := b.deficit - CountOf(b.category);
          owed := owed + unmet;
          if Overlap(from, |pool|, b.start, b.end) < unmet {
            PruneMembers(pool, budgets, chosen, from, size, i);
            return true;
          }
        }
      }
      assert budgets[..|budgets|] == budgets;
      if owed > remaining {
        PruneOwed(pool, budgets, chosen, from, size);
        return true;
      }
      return false;
    }

    /** `chosen.push`, with the counter of the candidate's category. */
    method Push(index: nat, budget: Option<nat>)
      requires Valid(index) && index < |pool| && |chosen| < size && budget == Find(budgets, pool[index].category)
      requires budget.Some? ==> CountOf(budgets[budget.value].category) < budgets[budget.value].capacity
      modifies this`chosen, this`counts
      ensures Valid(index + 1) && chosen == old(chosen) + [index]
    {
      CountRaised(budgets, counts, Picks(pool, chosen), pool[index]);
      assert Picks(pool, chosen + [index]) == Picks(pool, chosen) + [pool[index]];
      counts := Raised(counts, budgets, budget);
      chosen := chosen + [index];
    }

    /** Undoes `Push`. */
    method Pop(index: nat, budget: Option<nat>, ghost before: seq<nat>)
      requires Valid(index + 1) && index < |pool| && budget == Find(budgets, pool[index].category)
      requires chosen == before + [index] && IsPrefix(before, index)
      modifies this`chosen, this`counts
      ensures Valid(index + 1) && chosen == before
    {
      assert forall i :: 0 <= i < |before| ==> before[i] == chosen[i];
      assert Picks(pool, chosen) == Picks(pool, before) + [pool[index]];
      CountLowered(budgets, counts, Picks(pool, before), pool[index]);
      counts := Lowered(counts, budgets, budget);
      chosen := chosen[..|chosen| - 1];
    }

    /** Takes one position, walks on, and puts it back, unless its category is full. */
    method TakeAndWalk(index: nat)
      requires Valid(index) && index < |pool| && |chosen| < size
      modifies this
      ensures Valid(index + 1) && chosen == old(chosen)
      ensures yielded + Remaining(index + 1) == old(yielded) + old(Remaining(index))
      decreases |pool| - index, 0
    {
      ghost var done, before := yielded, chosen;
      var budget := Find(budgets, pool[index].category);
      if budget.Some? && CountOf(budgets[budget.value].category) >= budgets[budget.value].capacity {
        PruneFull(pool, budgets, chosen, index, size, budget.value);
        return;
      }
      Push(index, budget);
      ghost var taken := Remaining(index + 1);
      Walk(index + 1);
      Pop(index, budget, before);
      assert yielded + Remaining(index + 1) == done + (taken + Remaining(index + 1));
    }

    /** Walks every subset that extends the chosen one by positions from `from` on: exactly the accepted
    ones are added, in order, and the shared state is as before. */
    method Walk(from: nat)
      requires Valid(from) && from <= |pool|
      modifies this
      ensures Valid(from) && chosen == old(chosen)
      ensures yielded == old(yielded) + old(Remaining(from))
      decreases |pool| - from, 1
    {
      if |chosen| == size {
        var satisfied := IsSatisfied();
        if satisfied { yielded := yielded + [chosen]; }
        return;
      }
      var dead := IsUnreachable(from);
      if dead { return; }
      for index := from to |pool|
        invariant Valid(index) && chosen == old(chosen)
        invariant yielded + Remaining(index) == old(yielded) + old(Remaining(from))
      {
        TakeAndWalk(index);
      }
    }
  }
}

/** The hard bases are exactly the minimal selections the policy allows, listed from the cheapest preference on;
and what that means for the selection a fallback settles on. */
module FallbackChoice {
  import opened Options
  import opened Utf16
  import opened Sorting
  import opened Subsets
  import opened Precedence
  import opened Selections
  import opened Choices
  import opened Minimums
  import opened Allocation
  import opened Priorities
  import opened BudgetAllocator
  import opened Combinations
  import opened Bases
  import opened Correction
  import opened Fallback
  import opened Preference

  // ---------- deficits in order ----------

  /** The candidates of one category, preferred first. */
  ghost predicate IsPoolOf(optional: seq<Candidate>, d: Deficit) {
    && SortedBy(CostsLess, d.pool) && DistinctIds(d.pool)
    && forall c :: c in d.pool <==> c in optional && c.category == Some(d.category)
  }

  /** Deficits in the order of their categories, each over all candidates of its category. */
  ghost predicate AreInOrder(optional: seq<Candidate>, ds: seq<Deficit>) {
    && (forall q, r :: 0 <= q < r < |ds| ==> Less(ds[q].category, ds[r].category))
    && forall q :: 0 <= q < |ds| ==> IsPoolOf(optional, ds[q])
  }

  lemma PreferredIsPool(required: seq<Candidate>, optional: seq<Candidate>, k: Constraint)
    requires DistinctIds(optional)
    ensures forall d :: d in DeficitOf(required, optional, k) ==> IsPoolOf(optional, d) && d.category == k.category
  {
    KeepDistinct(optional, IsOf(k.category));
    ByCost(Keep(optional, IsOf(k.category)));
    PreferredFacts(optional, k.category);
  }

  lemma {:induction false} DeficitsInOrder(required: seq<Candidate>, optional: seq<Candidate>, ks: seq<Constraint>)
    requires DistinctIds(optional) && InCategoryOrder(ks)
    ensures AreInOrder(optional, DeficitsOf(required, optional, ks))
    ensures forall d :: d in DeficitsOf(required, optional, ks) ==> exists i :: 0 <= i < |ks| && d.category == ks[i].category
  {
    if ks != [] {
      var n := |ks| - 1;
      DeficitsInOrder(required, optional, ks[..n]);
      PreferredIsPool(required, optional, ks[n]);
      var left, right := DeficitsOf(required, optional, ks[..n]), DeficitOf(required, optional, ks[n]);
      forall d | d in left ensures Less(d.category, ks[n].category) && exists i :: 0 <= i < |ks| && d.category == ks[i].category {
        var i :| 0 <= i < n && d.category == ks[..n][i].category;
        assert ks[..n][i] == ks[i];
      }
      var all := left + right;
      forall q | 0 <= q < |all| ensures IsPoolOf(optional, all[q]) { assert all[q] in left || all[q] in right; }
      forall q, r | 0 <= q < r < |all| ensures Less(all[q].category, all[r].category) {
        if q < |left| <= r { assert all[q] in left && all[r] in right; }
      }
    }
  }

  // ---------- what a base holds ----------

  lemma {:induction false} FlatMembers(tuple: seq<seq<Candidate>>, c: Candidate)
    ensures c in Flat(tuple) <==> exists q :: 0 <= q < |tuple| && c in tuple[q]
  {
    if tuple != [] {
      var n := |tuple| - 1;
      FlatMembers(tuple[..n], c);
      assert forall q :: 0 <= q < n ==> tuple[..n][q] == tuple[q];
      if c in Flat(tuple[..n]) { var q :| 0 <= q < n && c in tuple[..n][q]; assert c in tuple[q]; }
      if q :| 0 <= q < |tuple| && c in tuple[q] { if q < n { assert c in tuple[..n][q]; } }
    }
  }

  /** Of one category a base holds just that category's picks. */
  lemma FlatOfCategory(optional: seq<Candidate>, ds: seq<Deficit>, tuple: seq<seq<Candidate>>, c: Candidate, q: nat)
    requires AreInOrder(optional, ds) && AllSupply(ds, tuple) && q < |ds| && c.category == Some(ds[q].category)
    ensures c in Flat(tuple) <==> c in tuple[q]
  {
    FlatMembers(tuple, c);
    if c in Flat(tuple) {
      var r :| 0 <= r < |tuple| && c in tuple[r];
      assert Supplies(ds[r], tuple[r]) && c in ds[r].pool;
      LessTrichotomy(ds[q].category, ds[q].category);
    }
  }

  lemma FlatElsewhere(optional: seq<Candidate>, ds: seq<Deficit>, tuple: seq<seq<Candidate>>, c: Candidate)
    requires AreInOrder(optional, ds) && AllSupply(ds, tuple) && forall q :: 0 <= q < |ds| ==> c.category != Some(ds[q].category)
    ensures c !in Flat(tuple)
  {
    FlatMembers(tuple, c);
    forall r | 0 <= r < |tuple| ensures c !in tuple[r] { assert Supplies(ds[r], tuple[r]) && IsPoolOf(optional, ds[r]); }
  }

  lemma InOrderAreDeficits(optional: seq<Candidate>, ds: seq<Deficit>)
    requires AreInOrder(optional, ds)
    ensures AreDeficits(optional, ds)
  {
    forall q, r | 0 <= q < r < |ds| ensures ds[q].category != ds[r].category { LessTrichotomy(ds[q].category, ds[r].category); }
    forall q, c | 0 <= q < |ds| && c in ds[q].pool ensures c in optional && c.category == Some(ds[q].category) {
      assert IsPoolOf(optional, ds[q]);
    }
  }

  // ---------- the order of the bases ----------

  lemma CombosInOrder(d: Deficit, a: nat, b: nat) returns (t: seq<nat>, u: seq<nat>)
    requires a < b < |CombosOf(d)|
    ensures IsSubset(|d.pool|, t) && IsSubset(|d.pool|, u) && LexLess(t, u)
    ensures CombosOf(d)[a] == Picks(d.pool, t) && CombosOf(d)[b] == Picks(d.pool, u)
  {
    var all := All(|d.pool|, d.size);
    AllFacts(|d.pool|, d.size);
    t, u := all[a], all[b];
    assert t in all && u in all && Before(t, u);
  }

  /** The first candidate that tells two tuples apart. */
  lemma TupleDiffers(optional: seq<Candidate>, ds: seq<Deficit>, x: seq<seq<Candidate>>, y: seq<seq<Candidate>>) returns (m: nat, c: Candidate)
    requires AreInOrder(optional, ds) && TupleLess(AllCombos(ds), x, y)
    ensures m < |ds| && |x| == |ds| == |y| && (forall q :: 0 <= q < m ==> x[q] == y[q])
    ensures c in ds[m].pool && c in x[m] && c !in y[m]
    ensures forall d :: d in ds[m].pool && CostsLess(d, c) ==> (d in x[m] <==> d in y[m])
  {
    var a: nat, b: nat;
    m, a, b :| TakesEarlier(AllCombos(ds), x, y, m, a, b);
    forall q | 0 <= q < m ensures x[q] == y[q] { assert x[..m][q] == y[..m][q]; }
    assert IsPoolOf(optional, ds[m]);
    var t, u := CombosInOrder(ds[m], a, b);
    CostsOneWay();
    c := PicksLead(CostsLess, ds[m].pool, t, u);
  }

  lemma CostsOneWay()
    ensures OneWay(CostsLess)
  {
    forall a: Candidate, b: Candidate ensures !(CostsLess(a, b) && CostsLess(b, a)) { LessTrichotomy(a.id, b.id); }
  }

  lemma SameBefore(optional: seq<Candidate>, ds: seq<Deficit>, x: seq<seq<Candidate>>, y: seq<seq<Candidate>>, m: nat, c: Candidate, d: Candidate)
    requires AreInOrder(optional, ds) && AllSupply(ds, x) && AllSupply(ds, y) && m < |ds|
    requires (forall q :: 0 <= q < m ==> x[q] == y[q]) && c in ds[m].pool
    requires forall e :: e in ds[m].pool && CostsLess(e, c) ==> (e in x[m] <==> e in y[m])
    requires d in optional && ReservedFirst(d, c)
    ensures d in Flat(x) <==> d in Flat(y)
  {
    assert IsPoolOf(optional, ds[m]);
    if q :| 0 <= q < |ds| && d.category == Some(ds[q].category) {
      FlatOfCategory(optional, ds, x, d, q);
      FlatOfCategory(optional, ds, y, d, q);
      LessTrichotomy(ds[q].category, ds[m].category);
      if q == m { assert d in ds[m].pool; }
    } else {
      FlatElsewhere(optional, ds, x, d);
      FlatElsewhere(optional, ds, y, d);
    }
  }

  /** The earlier of two bases holds the first difference. */
  lemma EarlierBaseLeads(eligible: seq<Candidate>, required: seq<Candidate>, optional: seq<Candidate>, ds: seq<Deficit>,
      x: seq<seq<Candidate>>, y: seq<seq<Candidate>>)
    requires DistinctIds(eligible) && Splits(eligible, required, optional) && DistinctIds(optional) && AreInOrder(optional, ds)
    requires AllSupply(ds, x) && AllSupply(ds, y) && TupleLess(AllCombos(ds), x, y)
    ensures Leads(ReservedFirst, eligible, Ids(required + Flat(x)), Ids(required + Flat(y)))
  {
    var s, v := required + Flat(x), required + Flat(y);
    InOrderAreDeficits(optional, ds);
    FlatSupplies(optional, ds, x);
    FlatSupplies(optional, ds, y);
    JoinSelections(eligible, required, optional, Flat(x));
    JoinSelections(eligible, required, optional, Flat(y));
    SplitMembers(eligible, required, optional);
    var m, c := TupleDiffers(optional, ds, x, y);
    assert IsPoolOf(optional, ds[m]);
    FlatOfCategory(optional, ds, x, c, m);
    FlatOfCategory(optional, ds, y, c, m);
    assert c in required + optional && c !in required;
    NamedIff(eligible, s, c);
    NamedIff(eligible, v, c);
    forall d | d in eligible && ReservedFirst(d, c) ensures d.id in Ids(s) <==> d.id in Ids(v) {
      assert d in required + optional;
      NamedIff(eligible, s, d);
      NamedIff(eligible, v, d);
      if d in optional { SameBefore(optional, ds, x, y, m, c, d); }
    }
    assert LeadsWith(ReservedFirst, eligible, Ids(s), Ids(v), c);
  }

  // ---------- the bases are the minimal selections ----------

  /** As many blocks as the required ones and the minimum ask for together. */
  function Least(k: Constraint, have: nat): nat {
    if k.minBlocks.Some? && k.minBlocks.value > have then k.minBlocks.value else have
  }

  /** A selection the policy allows that holds no more than it must: the required blocks, and of every constrained
  category what its minimum still needs. */
  ghost predicate IsMinimal(eligible: seq<Candidate>, constraints: seq<Constraint>, ids: set<Text>) {
    && MeetsPolicy(eligible, constraints, ids)
    && (forall c :: c in eligible && !c.required && c.id in ids ==> IsConstrained(constraints, c))
    && forall i :: 0 <= i < |constraints| ==>
         Blocks(eligible, ids, constraints[i].category) == Least(constraints[i], Count(RequiredIn(eligible), constraints[i].category))
  }

  /** What a minimal selection takes of one deficit's pool. */
  function Taken(d: Deficit, ids: set<Text>): seq<nat> { Marked(d.pool, ids, |d.pool|) }

  function TakenOf(ds: seq<Deficit>, ids: set<Text>): (tuple: seq<seq<Candidate>>)
    ensures |tuple| == |ds| && forall q :: 0 <= q < |ds| ==> tuple[q] == Picks(ds[q].pool, Taken(ds[q], ids))
  {
    seq(|ds|, q requires 0 <= q < |ds| => Picks(ds[q].pool, Taken(ds[q], ids)))
  }

  lemma {:induction false} MarkedSize(pool: seq<Candidate>, ids: set<Text>, n: nat)
    requires n <= |pool|
    ensures |Marked(pool, ids, n)| == Total(pool[..n], Among(ids, One()))
  {
    if n > 0 {
      MarkedSize(pool, ids, n - 1);
      assert pool[..n][..n - 1] == pool[..n - 1];
    }
  }

  /** A pool counts what its category does. */
  lemma PoolCount(optional: seq<Candidate>, d: Deficit, ids: set<Text>)
    requires DistinctIds(optional) && IsPoolOf(optional, d)
    ensures |Taken(d, ids)| == Total(optional, Among(ids, OfCategory(d.category)))
  {
    var kept := Keep(optional, IsOf(d.category));
    KeepDistinct(optional, IsOf(d.category));
    MarkedSize(d.pool, ids, |d.pool|);
    assert d.pool[..|d.pool|] == d.pool;
    SameMembersPermute(d.pool, kept);
    TotalPermutes(d.pool, kept, Among(ids, One()));
    KeepTotal(optional, IsOf(d.category), Among(ids, One()));
    TotalSame(optional, Among(ids, OfCategory(d.category)), Where(IsOf(d.category), Among(ids, One())));
  }

  lemma TakenIsCombo(d: Deficit, ids: set<Text>)
    requires |Taken(d, ids)| == d.size
    ensures Picks(d.pool, Taken(d, ids)) in CombosOf(d)
  {
    var t := Taken(d, ids);
    AllFacts(|d.pool|, d.size);
    assert t in All(|d.pool|, d.size);
    var i :| 0 <= i < |All(|d.pool|, d.size)| && All(|d.pool|, d.size)[i] == t;
    assert CombosOf(d)[i] == Picks(d.pool, t);
  }

  /** The deficit of a constraint that needs something. */
  ghost predicate IsDeficitOf(required: seq<Candidate>, k: Constraint, d: Deficit) {
    d.category == k.category && d.size == Needed(k, required)
  }

  lemma DeficitOfIs(required: seq<Candidate>, optional: seq<Candidate>, k: Constraint)
    ensures forall d :: d in DeficitOf(required, optional, k) ==> IsDeficitOf(required, k, d)
    ensures Needed(k, required) > 0 ==> Deficit(k.category, Preferred(optional, k.category), Needed(k, required)) in DeficitOf(required, optional, k)
  {
  }

  lemma {:induction false} DeficitIndex(required: seq<Candidate>, optional: seq<Candidate>, ks: seq<Constraint>, d: Deficit) returns (i: nat)
    requires d in DeficitsOf(required, optional, ks)
    ensures i < |ks| && IsDeficitOf(required, ks[i], d)
  {
    var n := |ks| - 1;
    DeficitOfIs(required, optional, ks[n]);
    if d in DeficitsOf(required, optional, ks[..n]) { i := DeficitIndex(required, optional, ks[..n], d); } else { i := n; }
  }

  lemma {:induction false} NeededDeficit(required: seq<Candidate>, optional: seq<Candidate>, ks: seq<Constraint>, i: nat) returns (d: Deficit)
    requires i < |ks| && Needed(ks[i], required) > 0
    ensures d in DeficitsOf(required, optional, ks) && IsDeficitOf(required, ks[i], d)
  {
    var n := |ks| - 1;
    DeficitOfIs(required, optional, ks[n]);
    if i < n {
      d := NeededDeficit(required, optional, ks[..n], i);
    } else {
      d := Deficit(ks[n].category, Preferred(optional, ks[n].category), Needed(ks[n], required));
    }
  }

  /** Of every category a minimal selection takes what is needed. */
  lemma TakesNeeded(eligible: seq<Candidate>, constraints: seq<Constraint>, ids: set<Text>, k: Constraint)
    requires DistinctIds(eligible) && k in constraints && IsMinimal(eligible, constraints, ids)
    ensures Total(OptionalIn(eligible), Among(ids, OfCategory(k.category))) == Needed(k, RequiredIn(eligible))
  {
    var i :| 0 <= i < |constraints| && constraints[i] == k;
    PoolSplits(eligible);
    SplitMembers(eligible, RequiredIn(eligible), OptionalIn(eligible));
    SplitTotal(eligible, RequiredIn(eligible), OptionalIn(eligible), ids, OfCategory(k.category));
    CountIsTotal(RequiredIn(eligible), k.category);
  }

  lemma TotalCounts(cs: seq<Candidate>, c: Candidate, w: Candidate -> nat)
    requires c in cs
    ensures Total(cs, w) >= w(c)
  {
    var k :| 0 <= k < |cs| && cs[k] == c;
    TotalWithout(cs, k, w);
  }

  /** The deficits of a compilation, in order. */
  function DeficitsIn(eligible: seq<Candidate>, constraints: seq<Constraint>): seq<Deficit> {
    DeficitsOf(RequiredIn(eligible), OptionalIn(eligible), Sort(CategoryAtMost, constraints))
  }

  lemma DeficitsInFacts(eligible: seq<Candidate>, constraints: seq<Constraint>)
    requires DistinctIds(eligible) && WellFormedPolicy(constraints)
    ensures AreInOrder(OptionalIn(eligible), DeficitsIn(eligible, constraints)) && DistinctIds(OptionalIn(eligible))
    ensures Splits(eligible, RequiredIn(eligible), OptionalIn(eligible)) && SameConstraints(constraints, Sort(CategoryAtMost, constraints))
  {
    PoolSplits(eligible);
    SplitMembers(eligible, RequiredIn(eligible), OptionalIn(eligible));
    SortedConstraints(constraints);
    CategoriesInOrder(constraints);
    DeficitsInOrder(RequiredIn(eligible), OptionalIn(eligible), Sort(CategoryAtMost, constraints));
  }

  lemma TakenIsTuple(eligible: seq<Candidate>, constraints: seq<Constraint>, ids: set<Text>)
    requires DistinctIds(eligible) && WellFormedPolicy(constraints) && IsMinimal(eligible, constraints, ids)
    ensures TakenOf(DeficitsIn(eligible, constraints), ids) in Product(AllCombos(DeficitsIn(eligible, constraints)))
  {
    var ds, ks := DeficitsIn(eligible, constraints), Sort(CategoryAtMost, constraints);
    DeficitsInFacts(eligible, constraints);
    forall q | 0 <= q < |ds| ensures TakenOf(ds, ids)[q] in AllCombos(ds)[q] {
      var i := DeficitIndex(RequiredIn(eligible), OptionalIn(eligible), ks, ds[q]);
      assert ks[i] in constraints;
      TakesNeeded(eligible, constraints, ids, ks[i]);
      PoolCount(OptionalIn(eligible), ds[q], ids);
      TakenIsCombo(ds[q], ids);
    }
    ProductMembers(AllCombos(ds), TakenOf(ds, ids));
  }

  /** What is taken holds every optional block of a minimal selection. */
  lemma TakenHolds(eligible: seq<Candidate>, constraints: seq<Constraint>, ids: set<Text>, c: Candidate)
    requires DistinctIds(eligible) && WellFormedPolicy(constraints) && IsMinimal(eligible, constraints, ids)
    requires c in eligible && !c.required && c.id in ids
    ensures c in Flat(TakenOf(DeficitsIn(eligible, constraints), ids))
  {
    var ds, ks := DeficitsIn(eligible, constraints), Sort(CategoryAtMost, constraints);
    DeficitsInFacts(eligible, constraints);
    var j :| 0 <= j < |constraints| && c.category == Some(constraints[j].category);
    assert constraints[j] in ks;
    var i :| 0 <= i < |ks| && ks[i] == constraints[j];
    TakesNeeded(eligible, constraints, ids, ks[i]);
    TotalCounts(OptionalIn(eligible), c, Among(ids, OfCategory(ks[i].category)));
    var d := NeededDeficit(RequiredIn(eligible), OptionalIn(eligible), ks, i);
    var q :| 0 <= q < |ds| && ds[q] == d;
    assert IsPoolOf(OptionalIn(eligible), ds[q]);
    MarkedHolds(ds[q].pool, ids, c);
    FlatMembers(TakenOf(ds, ids), c);
    assert c in TakenOf(ds, ids)[q];
  }

  lemma TakenOnly(ds: seq<Deficit>, ids: set<Text>, c: Candidate)
    requires c in Flat(TakenOf(ds, ids))
    ensures c.id in ids
  {
    FlatMembers(TakenOf(ds, ids), c);
    var q :| 0 <= q < |ds| && c in TakenOf(ds, ids)[q];
    MarkedOnly(ds[q].pool, ids, c);
  }

  /** Every minimal selection is one of the hard bases. */
  lemma MinimalIsBase(eligible: seq<Candidate>, constraints: seq<Constraint>, ids: set<Text>) returns (j: nat)
    requires DistinctIds(eligible) && WellFormedPolicy(constraints) && IsMinimal(eligible, constraints, ids)
    ensures j < |HardBases(eligible, constraints)| && Ids(HardBases(eligible, constraints)[j]) == ids
  {
    var x, tuples := TakenOf(DeficitsIn(eligible, constraints), ids), Product(AllCombos(DeficitsIn(eligible, constraints)));
    TakenIsTuple(eligible, constraints, ids);
    j :| 0 <= j < |tuples| && tuples[j] == x;
    var s := RequiredIn(eligible) + Flat(x);
    assert HardBases(eligible, constraints)[j] == s;
    forall id | id in ids ensures id in Ids(s) {
      var c :| c in eligible && c.id == id;
      if c.required { assert c in s; } else { TakenHolds(eligible, constraints, ids, c); assert c in s; }
    }
    forall c | c in s ensures c.id in ids {
      if c in Flat(x) { TakenOnly(DeficitsIn(eligible, constraints), ids, c); }
    }
  }

  lemma BaseHolds(eligible: seq<Candidate>, constraints: seq<Constraint>, available: nat, x: seq<seq<Candidate>>, i: nat)
    requires DistinctIds(eligible) && WellFormedPolicy(constraints) && Feasible(eligible, constraints, available) && i < |constraints|
    requires x in Product(AllCombos(DeficitsIn(eligible, constraints)))
    ensures Count(RequiredIn(eligible) + Flat(x), constraints[i].category) ==
      Least(constraints[i], Count(RequiredIn(eligible), constraints[i].category))
  {
    var ks := Sort(CategoryAtMost, constraints);
    FeasibleIsCountable(eligible, constraints, available);
    DeficitsInFacts(eligible, constraints);
    assert constraints[i] in ks;
    var j :| 0 <= j < |ks| && ks[j] == constraints[i];
    BaseMeetsPolicy(RequiredIn(eligible), OptionalIn(eligible), ks, x);
    CountHeld(RequiredIn(eligible), Flat(x), ks[j]);
  }

  lemma CountHeld(required: seq<Candidate>, picks: seq<Candidate>, k: Constraint)
    requires Count(picks, k.category) == Needed(k, required)
    ensures Count(required + picks, k.category) == Least(k, Count(required, k.category))
  {
    CountConcat(required, picks, k.category);
  }

  lemma BaseIsConstrained(eligible: seq<Candidate>, constraints: seq<Constraint>, x: seq<seq<Candidate>>, c: Candidate)
    requires DistinctIds(eligible) && WellFormedPolicy(constraints)
    requires x in Product(AllCombos(DeficitsIn(eligible, constraints))) && c in Flat(x)
    ensures IsConstrained(constraints, c)
  {
    var ds, ks := DeficitsIn(eligible, constraints), Sort(CategoryAtMost, constraints);
    DeficitsInFacts(eligible, constraints);
    InOrderAreDeficits(OptionalIn(eligible), ds);
    TupleSupplies(OptionalIn(eligible), ds, x);
    FlatMembers(x, c);
    var q :| 0 <= q < |x| && c in x[q];
    assert Supplies(ds[q], x[q]) && IsPoolOf(OptionalIn(eligible), ds[q]);
    var i := DeficitIndex(RequiredIn(eligible), OptionalIn(eligible), ks, ds[q]);
    assert ks[i] in constraints;
    var j :| 0 <= j < |constraints| && constraints[j] == ks[i];
  }

  /** Every hard base is a minimal selection. */
  lemma BaseIsMinimal(eligible: seq<Candidate>, constraints: seq<Constraint>, available: nat, s: seq<Candidate>)
    requires DistinctIds(eligible) && WellFormedPolicy(constraints) && Feasible(eligible, constraints, available)
    requires s in HardBases(eligible, constraints)
    ensures IsMinimal(eligible, constraints, Ids(s))
  {
    var tuples := Product(AllCombos(DeficitsIn(eligible, constraints)));
    BasesAreAllowed(eligible, constraints, available, s);
    var j :| 0 <= j < |tuples| && HardBases(eligible, constraints)[j] == s;
    forall i | 0 <= i < |constraints|
      ensures Blocks(eligible, Ids(s), constraints[i].category) == Least(constraints[i], Count(RequiredIn(eligible), constraints[i].category))
    {
      BaseHolds(eligible, constraints, available, tuples[j], i);
      SelectionFacts(eligible, s);
    }
    forall c | c in eligible && !c.required && c.id in Ids(s) ensures IsConstrained(constraints, c) {
      NamedIff(eligible, s, c);
      BaseIsConstrained(eligible, constraints, tuples[j], c);
    }
  }

  /** The hard bases are exactly the minimal selections. */
  lemma BasesAreMinimal(eligible: seq<Candidate>, constraints: seq<Constraint>, available: nat, ids: set<Text>)
    requires DistinctIds(eligible) && WellFormedPolicy(constraints) && Feasible(eligible, constraints, available)
    ensures IsMinimal(eligible, constraints, ids) <==> exists s :: s in HardBases(eligible, constraints) && Ids(s) == ids
  {
    if IsMinimal(eligible, constraints, ids) {
      var j := MinimalIsBase(eligible, constraints, ids);
      assert HardBases(eligible, constraints)[j] in HardBases(eligible, constraints);
    }
    forall s | s in HardBases(eligible, constraints) && Ids(s) == ids ensures IsMinimal(eligible, constraints, ids) {
      BaseIsMinimal(eligible, constraints, available, s);
    }
  }

  lemma BasesInOrder(eligible: seq<Candidate>, constraints: seq<Constraint>, i: nat, j: nat)
    requires DistinctIds(eligible) && WellFormedPolicy(constraints) && i < j < |HardBases(eligible, constraints)|
    ensures Leads(ReservedFirst, eligible, Ids(HardBases(eligible, constraints)[i]), Ids(HardBases(eligible, constraints)[j]))
  {
    var ds := DeficitsIn(eligible, constraints);
    var tuples := Product(AllCombos(ds));
    DeficitsInFacts(eligible, constraints);
    InOrderAreDeficits(OptionalIn(eligible), ds);
    ProductOrdered(AllCombos(ds));
    assert tuples[i] in tuples && tuples[j] in tuples;
    TupleSupplies(OptionalIn(eligible), ds, tuples[i]);
    TupleSupplies(OptionalIn(eligible), ds, tuples[j]);
    EarlierBaseLeads(eligible, RequiredIn(eligible), OptionalIn(eligible), ds, tuples[i], tuples[j]);
  }

  /** The same selection, or one that holds the first difference in the order the minimums are reserved. */
  ghost predicate IsReservedBefore(eligible: seq<Candidate>, ids: set<Text>, other: set<Text>) {
    ids == other || Leads(ReservedFirst, eligible, ids, other)
  }

  lemma BaseNames(eligible: seq<Candidate>, constraints: seq<Constraint>, i: nat, j: nat, ids: set<Text>, other: set<Text>)
    requires DistinctIds(eligible) && WellFormedPolicy(constraints) && i <= j < |HardBases(eligible, constraints)|
    requires Ids(HardBases(eligible, constraints)[i]) == ids && Ids(HardBases(eligible, constraints)[j]) == other
    ensures IsReservedBefore(eligible, ids, other)
  {
    if i < j { BasesInOrder(eligible, constraints, i, j); }
  }

  lemma BaseKey(eligible: seq<Candidate>, constraints: seq<Constraint>, available: nat, j: nat)
    requires DistinctIds(eligible) && WellFormedPolicy(constraints) && Feasible(eligible, constraints, available)
    requires j < |HardBases(eligible, constraints)|
    ensures KeysOf(HardBases(eligible, constraints))[j] ==
      Key(Ids(HardBases(eligible, constraints)[j]), Content(eligible, Ids(HardBases(eligible, constraints)[j])))
  {
    assert HardBases(eligible, constraints)[j] in HardBases(eligible, constraints);
    BasesAreAllowed(eligible, constraints, available, HardBases(eligible, constraints)[j]);
  }

  /** The base phase settles on the minimal selection that fits and holds the first difference from every other one
  that fits, in the order the minimums are reserved. */
  lemma BasePrefers(eligible: seq<Candidate>, constraints: seq<Constraint>, available: nat, render: set<Text> -> Option<nat>,
      ids: set<Text>, tokens: nat, other: set<Text>)
    requires DistinctIds(eligible) && WellFormedPolicy(constraints) && Feasible(eligible, constraints, available)
    requires IsFirstFit(KeysOf(HardBases(eligible, constraints)), available, render, ids, tokens)
    requires IsMinimal(eligible, constraints, other) && FitsIn(eligible, available, render, other)
    ensures IsReservedBefore(eligible, ids, other)
  {
    var j := MinimalIsBase(eligible, constraints, other);
    BaseKey(eligible, constraints, available, j);
    var i := NotAfter(HardBases(eligible, constraints), available, render, ids, tokens, j);
    BaseNames(eligible, constraints, i, j, ids, other);
  }

  // ---------- the choice of a fallback ----------

  /** The fallback settles on a minimal selection if one fits, the one the minimums prefer; otherwise on the
  smallest selection that fits, the first in the order of the pool. */
  ghost predicate IsBestFit(eligible: seq<Candidate>, constraints: seq<Constraint>, available: nat, render: set<Text> -> Option<nat>, o: Outcome<set<Text>>) {
    match o
    case Settled(ids, _, HardBase) =>
      && IsMinimal(eligible, constraints, ids)
      && forall other :: IsMinimal(eligible, constraints, other) && FitsIn(eligible, available, render, other) ==>
           IsReservedBefore(eligible, ids, other)
    case Settled(ids, _, PolicyRescue) =>
      && (forall other :: IsMinimal(eligible, constraints, other) ==> !FitsIn(eligible, available, render, other))
      && forall other :: MeetsPolicy(eligible, constraints, other) && FitsIn(eligible, available, render, other) ==>
           IsRescuedBefore(eligible, ids, other)
    case _ => true
  }

  lemma NoBaseFits(eligible: seq<Candidate>, constraints: seq<Constraint>, available: nat, render: set<Text> -> Option<nat>, other: set<Text>)
    requires DistinctIds(eligible) && WellFormedPolicy(constraints) && Feasible(eligible, constraints, available)
    requires forall key :: key in KeysOf(HardBases(eligible, constraints)) ==> !Fits(available, render, key)
    requires IsMinimal(eligible, constraints, other)
    ensures !FitsIn(eligible, available, render, other)
  {
    var j := MinimalIsBase(eligible, constraints, other);
    BaseKey(eligible, constraints, available, j);
    assert KeysOf(HardBases(eligible, constraints))[j] in KeysOf(HardBases(eligible, constraints));
  }

  lemma FirstFitIsMinimal(eligible: seq<Candidate>, constraints: seq<Constraint>, available: nat, render: set<Text> -> Option<nat>, ids: set<Text>, tokens: nat)
    requires DistinctIds(eligible) && WellFormedPolicy(constraints) && Feasible(eligible, constraints, available)
    requires IsFirstFit(KeysOf(HardBases(eligible, constraints)), available, render, ids, tokens)
    ensures IsMinimal(eligible, constraints, ids)
  {
    var keys := KeysOf(HardBases(eligible, constraints));
    var i: nat :| i < |keys| && keys[i].ids == ids;
    assert HardBases(eligible, constraints)[i] in HardBases(eligible, constraints);
    BaseIsMinimal(eligible, constraints, available, HardBases(eligible, constraints)[i]);
  }

  /** Whatever a fallback settles on is preferred to every other selection that fits. */
  lemma ChoiceIsBest(eligible: seq<Candidate>, constraints: seq<Constraint>, available: nat, render: set<Text> -> Option<nat>, o: Outcome<set<Text>>)
    requires DistinctIds(eligible) && WellFormedPolicy(constraints) && Feasible(eligible, constraints, available)
    requires IsFallbackChoice(eligible, constraints, available, render, o)
    ensures IsBestFit(eligible, constraints, available, render, o)
  {
    match o
    case Settled(ids, tokens, HardBase) =>
      FirstFitIsMinimal(eligible, constraints, available, render, ids, tokens);
      forall other | IsMinimal(eligible, constraints, other) && FitsIn(eligible, available, render, other)
        ensures IsReservedBefore(eligible, ids, other)
      {
        BasePrefers(eligible, constraints, available, render, ids, tokens, other);
      }
    case Settled(ids, tokens, PolicyRescue) =>
      forall other | IsMinimal(eligible, constraints, other) ensures !FitsIn(eligible, available, render, other) {
        NoBaseFits(eligible, constraints, available, render, other);
      }
      forall other | MeetsPolicy(eligible, constraints, other) && FitsIn(eligible, available, render, other)
        ensures IsRescuedBefore(eligible, ids, other)
      {
        RescuePrefers(eligible, constraints, available, render, ids, tokens, other);
      }
    case _ =>
  }
}

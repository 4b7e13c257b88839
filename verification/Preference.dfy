/** Which selection a fallback prefers: the hard base and the rescue selection it settles on, compared with every
other one that fits. */
module Preference {
  import opened Options
  import opened Utf16
  import opened Sorting
  import opened Subsets
  import opened Precedence
  import opened Selections
  import opened Choices
  import opened Minimums
  import opened Allocation
  import opened Priorities
  import opened BudgetAllocator
  import opened Combinations
  import opened Rescue
  import opened Bases
  import opened Correction
  import opened Fallback

  // ---------- the first difference ----------

  ghost predicate LeadsWith(first: (Candidate, Candidate) -> bool, eligible: seq<Candidate>, ids: set<Text>, other: set<Text>, c: Candidate) {
    && c in eligible && c.id in ids && c.id !in other
    && forall d :: d in eligible && first(d, c) ==> (d.id in ids <==> d.id in other)
  }

  /** In the given order of candidates, the first on which two selections differ belongs to `ids`. */
  ghost predicate Leads(first: (Candidate, Candidate) -> bool, eligible: seq<Candidate>, ids: set<Text>, other: set<Text>) {
    exists c :: LeadsWith(first, eligible, ids, other, c)
  }

  lemma PooledOneWay()
    ensures OneWay(PooledFirst)
  {
    forall a: Candidate, b: Candidate ensures !(PooledFirst(a, b) && PooledFirst(b, a)) {
      LessTrichotomy(a.id, b.id);
      if a.category.Some? && b.category.Some? { LessTrichotomy(a.category.value, b.category.value); }
    }
  }

  /** The pool of the rescue stands in its order. */
  lemma PoolInOrder(eligible: seq<Candidate>)
    requires DistinctIds(eligible)
    ensures SortedBy(PooledFirst, PoolOf(eligible)) && forall c :: c in PoolOf(eligible) <==> c in eligible && !c.required
  {
    RescueIsPreorder();
    KeepDistinct(eligible, IsOptional());
    SortedInOrder(RescueAtMost, PooledFirst, OptionalIn(eligible));
  }

  lemma PickedIff(pool: seq<Candidate>, t: seq<nat>, p: nat)
    requires DistinctIds(pool) && IsSubset(|pool|, t) && p < |pool|
    ensures pool[p] in Picks(pool, t) <==> p in t
  {
    if pool[p] in Picks(pool, t) {
      var j :| 0 <= j < |t| && Picks(pool, t)[j] == pool[p];
      assert pool[t[j]].id == pool[p].id;
    }
    if p in t {
      var j :| 0 <= j < |t| && t[j] == p;
      assert Picks(pool, t)[j] == pool[p];
    }
  }

  /** The first position on which two subsets of one pool differ. */
  lemma LexDiffers(n: nat, t: seq<nat>, u: seq<nat>) returns (p: nat)
    requires IsSubset(n, t) && IsSubset(n, u) && LexLess(t, u)
    ensures p < n && p in t && p !in u && forall q: nat :: q < p ==> (q in t <==> q in u)
  {
    var k :| 0 <= k < |t| && k < |u| && t[..k] == u[..k] && t[k] < u[k];
    p := t[k];
    forall j | 0 <= j < k ensures t[j] == u[j] { assert t[..k][j] == u[..k][j]; }
    forall q: nat | q < p ensures q in t <==> q in u {
      if q in t { var j :| 0 <= j < |t| && t[j] == q; assert j < k; assert u[j] == q; }
      if q in u { var j :| 0 <= j < |u| && u[j] == q; assert j < k; assert t[j] == q; }
    }
  }

  /** Two lists of picks from one sorted pool, compared by their positions. */
  lemma PicksLead(first: (Candidate, Candidate) -> bool, pool: seq<Candidate>, t: seq<nat>, u: seq<nat>) returns (c: Candidate)
    requires SortedBy(first, pool) && OneWay(first) && DistinctIds(pool)
    requires IsSubset(|pool|, t) && IsSubset(|pool|, u) && LexLess(t, u)
    ensures c in Picks(pool, t) && c !in Picks(pool, u) && c in pool
    ensures forall d :: d in pool && first(d, c) ==> (d in Picks(pool, t) <==> d in Picks(pool, u))
  {
    var p := LexDiffers(|pool|, t, u);
    c := pool[p];
    PickedIff(pool, t, p);
    PickedIff(pool, u, p);
    forall d | d in pool && first(d, c) ensures d in Picks(pool, t) <==> d in Picks(pool, u) {
      var q :| 0 <= q < |pool| && pool[q] == d;
      assert q < p;
      PickedIff(pool, t, q);
      PickedIff(pool, u, q);
    }
  }

  /** A candidate is named by a list exactly when it is in it. */
  lemma NamedIff(eligible: seq<Candidate>, s: seq<Candidate>, d: Candidate)
    requires DistinctIds(eligible) && IsSelection(eligible, s) && d in eligible
    ensures d.id in Ids(s) <==> d in s
  {
    if d.id in Ids(s) {
      var x :| x in s && x.id == d.id;
      SameIdSame(eligible, x, d);
    }
  }

  // ---------- the rescue ----------

  lemma SelectionSize(required: seq<Candidate>, picks: seq<Candidate>)
    requires DistinctIds(required + picks)
    ensures |Ids(required + picks)| == |required| + |picks|
  {
    IdsCard(required + picks);
  }

  lemma {:induction false} IdsCard(cs: seq<Candidate>)
    requires DistinctIds(cs)
    ensures |Ids(cs)| == |cs|
  {
    if cs != [] {
      var n := |cs| - 1;
      IdsCard(cs[..n]);
      assert cs == cs[..n] + [cs[n]];
      assert Ids(cs) == Ids(cs[..n]) + {cs[n].id};
    }
  }

  /** Of two selections of the rescue the earlier is smaller, or as large and holds the first difference. */
  lemma EarlierIsPreferred(eligible: seq<Candidate>, pool: seq<Candidate>, required: seq<Candidate>, t: seq<nat>, u: seq<nat>)
    requires DistinctIds(eligible) && Splits(eligible, required, pool) && SortedBy(PooledFirst, pool)
    requires IsSubset(|pool|, t) && IsSubset(|pool|, u) && Before(t, u)
    ensures var ids, other := Ids(required + Picks(pool, t)), Ids(required + Picks(pool, u));
      |ids| < |other| || (|ids| == |other| && Leads(PooledFirst, eligible, ids, other))
  {
    var s, v := required + Picks(pool, t), required + Picks(pool, u);
    JoinedIsSelection(eligible, required, pool, t);
    JoinedIsSelection(eligible, required, pool, u);
    SelectionSize(required, Picks(pool, t));
    SelectionSize(required, Picks(pool, u));
    SplitMembers(eligible, required, pool);
    if |t| == |u| {
      PooledOneWay();
      var c := PicksLead(PooledFirst, pool, t, u);
      assert !c.required && c in required + pool;
      NamedIff(eligible, s, c);
      NamedIff(eligible, v, c);
      forall d | d in eligible && PooledFirst(d, c) ensures d.id in Ids(s) <==> d.id in Ids(v) {
        NamedIff(eligible, s, d);
        NamedIff(eligible, v, d);
        assert d in required + pool;
      }
      assert LeadsWith(PooledFirst, eligible, Ids(s), Ids(v), c);
    }
  }

  /** Position `i` of the rescue: the subset it picks. */
  lemma RescueAt(eligible: seq<Candidate>, constraints: seq<Constraint>, i: nat) returns (t: seq<nat>)
    requires DistinctIds(eligible) && i < |RescueSelections(eligible, constraints)|
    ensures ValidSelections(PoolOf(eligible), RequiredIn(eligible), constraints)[i] == t && IsSubset(|PoolOf(eligible)|, t)
    ensures RescueSelections(eligible, constraints)[i] == RequiredIn(eligible) + Picks(PoolOf(eligible), t)
  {
    var ts := ValidSelections(PoolOf(eligible), RequiredIn(eligible), constraints);
    EachValidOnce(PoolOf(eligible), RequiredIn(eligible), constraints);
    t := ts[i];
    assert t in ts;
  }

  lemma RescueInOrder(eligible: seq<Candidate>, constraints: seq<Constraint>, i: nat, j: nat)
    requires DistinctIds(eligible) && i < j < |RescueSelections(eligible, constraints)|
    ensures var ids, other := Ids(RescueSelections(eligible, constraints)[i]), Ids(RescueSelections(eligible, constraints)[j]);
      |ids| < |other| || (|ids| == |other| && Leads(PooledFirst, eligible, ids, other))
  {
    var t := RescueAt(eligible, constraints, i);
    var u := RescueAt(eligible, constraints, j);
    EachValidOnce(PoolOf(eligible), RequiredIn(eligible), constraints);
    PoolSplits(eligible);
    PoolInOrder(eligible);
    EarlierIsPreferred(eligible, PoolOf(eligible), RequiredIn(eligible), t, u);
  }

  /** The same selection, a smaller one, or one as large that holds the first difference in the order of the pool. */
  ghost predicate IsRescuedBefore(eligible: seq<Candidate>, ids: set<Text>, other: set<Text>) {
    ids == other || |ids| < |other| || (|ids| == |other| && Leads(PooledFirst, eligible, ids, other))
  }

  lemma RescueNames(eligible: seq<Candidate>, constraints: seq<Constraint>, i: nat, j: nat, ids: set<Text>, other: set<Text>)
    requires DistinctIds(eligible) && i <= j < |RescueSelections(eligible, constraints)|
    requires Ids(RescueSelections(eligible, constraints)[i]) == ids && Ids(RescueSelections(eligible, constraints)[j]) == other
    ensures IsRescuedBefore(eligible, ids, other)
  {
    if i < j { RescueInOrder(eligible, constraints, i, j); }
  }

  /** Where the rescue comes to an allowed selection. */
  lemma RescueIndex(eligible: seq<Candidate>, constraints: seq<Constraint>, other: set<Text>) returns (j: nat)
    requires DistinctIds(eligible) && MeetsPolicy(eligible, constraints, other)
    ensures j < |RescueSelections(eligible, constraints)| && Ids(RescueSelections(eligible, constraints)[j]) == other
    ensures KeysOf(RescueSelections(eligible, constraints))[j] == Key(other, Content(eligible, other))
  {
    var selections := RescueSelections(eligible, constraints);
    AllowedIsYielded(eligible, constraints, other);
    var s :| s in selections && IsSelection(eligible, s) && Ids(s) == other;
    YieldedIsAllowed(eligible, constraints, s);
    j :| 0 <= j < |selections| && selections[j] == s;
  }

  ghost predicate FitsIn(eligible: seq<Candidate>, available: nat, render: set<Text> -> Option<nat>, ids: set<Text>) {
    Fits(available, render, Key(ids, Content(eligible, ids)))
  }

  /** The first fit is not after any selection that fits. */
  lemma NotAfter(selections: seq<seq<Candidate>>, available: nat, render: set<Text> -> Option<nat>, ids: set<Text>, tokens: nat, j: nat)
      returns (i: nat)
    requires IsFirstFit(KeysOf(selections), available, render, ids, tokens)
    requires j < |selections| && Fits(available, render, KeysOf(selections)[j])
    ensures i <= j && Ids(selections[i]) == ids
  {
    var keys := KeysOf(selections);
    i :| i < |keys| && keys[i].ids == ids && forall k :: 0 <= k < i ==> !Fits(available, render, keys[k]);
  }

  /** The rescue settles on the smallest selection that fits, and among those of one size on the one that holds
  the first difference in the order of the pool. */
  lemma RescuePrefers(eligible: seq<Candidate>, constraints: seq<Constraint>, available: nat, render: set<Text> -> Option<nat>,
      ids: set<Text>, tokens: nat, other: set<Text>)
    requires DistinctIds(eligible) && IsFirstFit(KeysOf(RescueSelections(eligible, constraints)), available, render, ids, tokens)
    requires MeetsPolicy(eligible, constraints, other) && FitsIn(eligible, available, render, other)
    ensures IsRescuedBefore(eligible, ids, other)
  {
    var j := RescueIndex(eligible, constraints, other);
    var i := NotAfter(RescueSelections(eligible, constraints), available, render, ids, tokens, j);
    RescueNames(eligible, constraints, i, j, ids, other);
  }

  // ---------- products in order ----------

  /** The tuples agree up to a position, and there the first takes an earlier item. */
  ghost predicate TakesEarlier<T>(lists: seq<seq<T>>, x: seq<T>, y: seq<T>, m: nat, a: nat, b: nat) {
    && m < |lists| && |x| == |lists| == |y| && x[..m] == y[..m]
    && a < b < |lists[m]| && lists[m][a] == x[m] && lists[m][b] == y[m]
  }

  ghost predicate TupleLess<T>(lists: seq<seq<T>>, x: seq<T>, y: seq<T>) {
    exists m: nat, a: nat, b: nat :: TakesEarlier(lists, x, y, m, a, b)
  }

  ghost predicate TuplesOrdered<T>(lists: seq<seq<T>>, tuples: seq<seq<T>>) {
    forall i, j :: 0 <= i < j < |tuples| ==> TupleLess(lists, tuples[i], tuples[j])
  }

  lemma PrependedOrdered<T>(items: seq<T>, item: T, rest: seq<seq<T>>, x: seq<T>, y: seq<T>)
    requires TupleLess(rest, x, y)
    ensures TupleLess([items] + rest, [item] + x, [item] + y)
  {
    var m: nat, a: nat, b: nat :| TakesEarlier(rest, x, y, m, a, b);
    assert ([item] + x)[..m + 1] == [item] + x[..m] && ([item] + y)[..m + 1] == [item] + y[..m];
    assert TakesEarlier([items] + rest, [item] + x, [item] + y, m + 1, a, b);
  }

  lemma EarlierItemFirst<T>(items: seq<T>, rest: seq<seq<T>>, x: seq<T>, y: seq<T>, a: nat, b: nat)
    requires a < b < |items| && |x| == |rest| + 1 == |y| && x[0] == items[a] && y[0] == items[b]
    ensures TupleLess([items] + rest, x, y)
  {
    assert TakesEarlier([items] + rest, x, y, 0, a, b);
  }

  lemma MoreItems<T>(items: seq<T>, more: seq<T>, rest: seq<seq<T>>, x: seq<T>, y: seq<T>)
    requires items <= more && TupleLess([items] + rest, x, y)
    ensures TupleLess([more] + rest, x, y)
  {
    var m: nat, a: nat, b: nat :| TakesEarlier([items] + rest, x, y, m, a, b);
    assert TakesEarlier([more] + rest, x, y, m, a, b);
  }

  /** Tuples that take an earlier first item come before those that take the last. */
  lemma ItemsBeforeLast<T>(items: seq<T>, rest: seq<seq<T>>, tails: seq<seq<T>>, x: seq<T>, tail: seq<T>)
    requires items != [] && x in ProductFrom(items[..|items| - 1], tails) && tail in tails && forall t :: t in tails ==> |t| == |rest|
    ensures TupleLess([items] + rest, x, [items[|items| - 1]] + tail)
  {
    var n := |items| - 1;
    ProductFromMembers(items[..n], tails, x);
    var a :| 0 <= a < n && items[..n][a] == x[0];
    EarlierItemFirst(items, rest, x, [items[n]] + tail, a, n);
  }

  lemma OrderedTuplesConcat<T>(lists: seq<seq<T>>, left: seq<seq<T>>, right: seq<seq<T>>)
    requires TuplesOrdered(lists, left) && TuplesOrdered(lists, right)
    requires forall x, y :: x in left && y in right ==> TupleLess(lists, x, y)
    ensures TuplesOrdered(lists, left + right)
  {
    var all := left + right;
    forall i, j | 0 <= i < j < |all| ensures TupleLess(lists, all[i], all[j]) {
      if i < |left| <= j { assert left[i] in left && right[j - |left|] in right; }
    }
  }

  lemma {:induction false} ProductFromOrdered<T>(items: seq<T>, rest: seq<seq<T>>, tails: seq<seq<T>>)
    requires TuplesOrdered(rest, tails) && forall t :: t in tails ==> |t| == |rest|
    ensures TuplesOrdered([items] + rest, ProductFrom(items, tails))
  {
    if items != [] {
      var n := |items| - 1;
      var left, right := ProductFrom(items[..n], tails), Prepended(items[n], tails);
      ProductFromOrdered(items[..n], rest, tails);
      forall i, j | 0 <= i < j < |left| ensures TupleLess([items] + rest, left[i], left[j]) {
        MoreItems(items[..n], items, rest, left[i], left[j]);
      }
      forall i, j | 0 <= i < j < |right| ensures TupleLess([items] + rest, right[i], right[j]) {
        PrependedOrdered(items, items[n], rest, tails[i], tails[j]);
      }
      forall x, y | x in left && y in right ensures TupleLess([items] + rest, x, y) {
        var j :| 0 <= j < |right| && right[j] == y;
        ItemsBeforeLast(items, rest, tails, x, tails[j]);
      }
      OrderedTuplesConcat([items] + rest, left, right);
    }
  }

  /** The product lists its tuples lexicographically. */
  lemma {:induction false} ProductOrdered<T>(lists: seq<seq<T>>)
    ensures TuplesOrdered(lists, Product(lists))
    decreases |lists|
  {
    if lists != [] {
      ProductOrdered(lists[1..]);
      forall t | t in Product(lists[1..]) ensures |t| == |lists[1..]| { ProductMembers(lists[1..], t); }
      ProductFromOrdered(lists[0], lists[1..], Product(lists[1..]));
      assert [lists[0]] + lists[1..] == lists;
    }
  }
}

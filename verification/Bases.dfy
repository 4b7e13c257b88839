/** The minimal selections the fallback tries first: for every category that still owes blocks, one
combination of its candidates. */
module Bases {
  import opened Options
  import opened Utf16
  import opened Sorting
  import opened Subsets
  import opened Selections
  import opened Choices
  import opened Minimums
  import opened Allocation
  import opened BudgetAllocator
  import opened Combinations

  /** What one category owes, and the candidates it may come from, preferred first. */
  datatype Deficit = Deficit(category: Text, pool: seq<Candidate>, size: nat)

  function DeficitOf(required: seq<Candidate>, optional: seq<Candidate>, k: Constraint): seq<Deficit> {
    if Needed(k, required) == 0 then [] else [Deficit(k.category, Preferred(optional, k.category), Needed(k, required))]
  }

  function DeficitsOf(required: seq<Candidate>, optional: seq<Candidate>, ks: seq<Constraint>): seq<Deficit> {
    if ks == [] then [] else DeficitsOf(required, optional, ks[..|ks| - 1]) + DeficitOf(required, optional, ks[|ks| - 1])
  }

  /** The deficits, or nothing when a category cannot supply what it owes. */
  method CategoryDeficits(required: seq<Candidate>, optional: seq<Candidate>, ks: seq<Constraint>) returns (ds: Option<seq<Deficit>>)
    requires DistinctIds(optional)
    ensures ds.Some? <==> Reachable(required, optional, ks)
    ensures ds.Some? ==> ds.value == DeficitsOf(required, optional, ks)
  {
    var out: seq<Deficit> := [];
    for i := 0 to |ks|
      invariant out == DeficitsOf(required, optional, ks[..i]) && Reachable(required, optional, ks[..i])
    {
      DeficitsStep(required, optional, ks, i);
      var k := ks[i];
      var pool := Preferred(optional, k.category);
      if |pool| < Needed(k, required) { return None; }
      if Needed(k, required) > 0 { out := out + [Deficit(k.category, pool, Needed(k, required))]; }
    }
    assert ks[..|ks|] == ks;
    return Some(out);
  }

  lemma DeficitsStep(required: seq<Candidate>, optional: seq<Candidate>, ks: seq<Constraint>, i: nat)
    requires DistinctIds(optional) && i < |ks| && Reachable(required, optional, ks[..i])
    ensures DeficitsOf(required, optional, ks[..i + 1]) == DeficitsOf(required, optional, ks[..i]) + DeficitOf(required, optional, ks[i])
    ensures Reachable(required, optional, ks[..i + 1]) <==> |Preferred(optional, ks[i].category)| >= Needed(ks[i], required)
    ensures |Preferred(optional, ks[i].category)| < Needed(ks[i], required) ==> !Reachable(required, optional, ks)
  {
    PreferredFacts(optional, ks[i].category);
    assert ks[..i + 1] == ks[..i] + [ks[i]];
    forall j | 0 <= j < i ensures ks[..i][j] == ks[j] && Needed(ks[j], required) <= Count(optional, ks[j].category) {
      assert Needed(ks[..i][j], required) <= Count(optional, ks[..i][j].category);
    }
  }

  // ---------- products ----------

  /** Every way to take one item from each list, the last varying fastest. */
  function Product<T>(lists: seq<seq<T>>): seq<seq<T>> {
    if lists == [] then [[]] else ProductFrom(lists[0], Product(lists[1..]))
  }

  function ProductFrom<T>(items: seq<T>, tails: seq<seq<T>>): seq<seq<T>> {
    if items == [] then [] else ProductFrom(items[..|items| - 1], tails) + Prepended(items[|items| - 1], tails)
  }

  function Prepended<T>(item: T, tails: seq<seq<T>>): (tuples: seq<seq<T>>)
    ensures |tuples| == |tails| && forall i :: 0 <= i < |tails| ==> tuples[i] == [item] + tails[i]
  {
    seq(|tails|, i requires 0 <= i < |tails| => [item] + tails[i])
  }

  method Cartesian<T>(lists: seq<seq<T>>) returns (yielded: seq<seq<T>>)
    ensures yielded == Product(lists)
    decreases |lists|
  {
    if lists == [] { return [[]]; }
    yielded := [];
    for i := 0 to |lists[0]|
      invariant yielded == ProductFrom(lists[0][..i], Product(lists[1..]))
    {
      var tails := Cartesian(lists[1..]);
      assert lists[0][..i + 1][..i] == lists[0][..i];
      for j := 0 to |tails|
        invariant yielded == ProductFrom(lists[0][..i], tails) + Prepended(lists[0][i], tails)[..j]
      {
        yielded := yielded + [[lists[0][i]] + tails[j]];
      }
      assert Prepended(lists[0][i], tails)[..|tails|] == Prepended(lists[0][i], tails);
    }
    assert lists[0][..|lists[0]|] == lists[0];
  }

  ghost predicate OneFromEach<T>(lists: seq<seq<T>>, tuple: seq<T>) {
    |tuple| == |lists| && forall i :: 0 <= i < |tuple| ==> tuple[i] in lists[i]
  }

  lemma {:induction false} ProductFromMembers<T>(items: seq<T>, tails: seq<seq<T>>, tuple: seq<T>)
    ensures tuple in ProductFrom(items, tails) <==> |tuple| > 0 && tuple[0] in items && tuple[1..] in tails
  {
    if items != [] {
      var n := |items| - 1;
      ProductFromMembers(items[..n], tails, tuple);
      var last := Prepended(items[n], tails);
      if tuple in last { var i :| 0 <= i < |last| && last[i] == tuple; assert tuple[1..] == tails[i]; }
      if |tuple| > 0 && tuple[0] == items[n] && tuple[1..] in tails {
        var i :| 0 <= i < |tails| && tails[i] == tuple[1..];
        assert last[i] == tuple;
      }
      assert items == items[..n] + [items[n]];
    }
  }

  /** The product holds exactly the tuples with one item from each list. */
  lemma {:induction false} ProductMembers<T>(lists: seq<seq<T>>, tuple: seq<T>)
    ensures tuple in Product(lists) <==> OneFromEach(lists, tuple)
    decreases |lists|
  {
    if lists != [] {
      ProductFromMembers(lists[0], Product(lists[1..]), tuple);
      if |tuple| > 0 {
        ProductMembers(lists[1..], tuple[1..]);
        if OneFromEach(lists, tuple) { assert OneFromEach(lists[1..], tuple[1..]); }
        if tuple[0] in lists[0] && OneFromEach(lists[1..], tuple[1..]) {
          forall i | 0 <= i < |tuple| ensures tuple[i] in lists[i] { if i > 0 { assert tuple[1..][i - 1] in lists[1..][i - 1]; } }
        }
      }
    }
  }

  function Firsts<T>(lists: seq<seq<T>>): seq<T>
    requires forall i :: 0 <= i < |lists| ==> lists[i] != []
  {
    seq(|lists|, i requires 0 <= i < |lists| => lists[i][0])
  }

  lemma {:induction false} ProductFromFirst<T>(items: seq<T>, tails: seq<seq<T>>)
    requires items != [] && tails != []
    ensures ProductFrom(items, tails) != [] && ProductFrom(items, tails)[0] == [items[0]] + tails[0]
  {
    if |items| > 1 { ProductFromFirst(items[..|items| - 1], tails); }
  }

  /** The first tuple takes the first item of each list. */
  lemma {:induction false} ProductFirst<T>(lists: seq<seq<T>>)
    requires forall i :: 0 <= i < |lists| ==> lists[i] != []
    ensures Product(lists) != [] && Product(lists)[0] == Firsts(lists)
    decreases |lists|
  {
    if lists != [] {
      ProductFirst(lists[1..]);
      ProductFromFirst(lists[0], Product(lists[1..]));
      assert Firsts(lists) == [lists[0][0]] + Firsts(lists[1..]);
    }
  }

  // ---------- bases ----------

  function Flat(tuple: seq<seq<Candidate>>): seq<Candidate> {
    if tuple == [] then [] else Flat(tuple[..|tuple| - 1]) + tuple[|tuple| - 1]
  }

  /** The combinations of a deficit, in lexicographic order of preference. */
  function CombosOf(d: Deficit): (combos: seq<seq<Candidate>>) {
    var all := All(|d.pool|, d.size);
    seq(|all|, i requires 0 <= i < |all| => if InPool(d.pool, all[i]) then Picks(d.pool, all[i]) else [])
  }

  function AllCombos(ds: seq<Deficit>): (lists: seq<seq<seq<Candidate>>>)
    ensures |lists| == |ds| && forall i :: 0 <= i < |ds| ==> lists[i] == CombosOf(ds[i])
  {
    seq(|ds|, i requires 0 <= i < |ds| => CombosOf(ds[i]))
  }

  /** As many different candidates of the pool as the deficit. */
  ghost predicate Supplies(d: Deficit, picks: seq<Candidate>) {
    |picks| == d.size && IsSelection(d.pool, picks)
  }

  lemma PicksSelect(pool: seq<Candidate>, t: seq<nat>)
    requires DistinctIds(pool) && IsSubset(|pool|, t)
    ensures IsSelection(pool, Picks(pool, t))
  {
  }

  lemma CombosSupply(d: Deficit, picks: seq<Candidate>)
    requires DistinctIds(d.pool) && picks in CombosOf(d)
    ensures Supplies(d, picks)
  {
    var all := All(|d.pool|, d.size);
    var i :| 0 <= i < |all| && CombosOf(d)[i] == picks;
    AllFacts(|d.pool|, d.size);
    assert all[i] in all;
    PicksSelect(d.pool, all[i]);
  }

  method Combos(d: Deficit) returns (combos: seq<seq<Candidate>>)
    ensures combos == CombosOf(d)
  {
    var all := AllCombinations(|d.pool|, d.size);
    AllFacts(|d.pool|, d.size);
    combos := [];
    for i := 0 to |all|
      invariant combos == CombosOf(d)[..i]
    {
      assert all[i] in all;
      combos := combos + [Picks(d.pool, all[i])];
    }
  }

  /** Deficits of different categories, over the preferred candidates of each. */
  ghost predicate AreDeficits(optional: seq<Candidate>, ds: seq<Deficit>) {
    && (forall i, j :: 0 <= i < j < |ds| ==> ds[i].category != ds[j].category)
    && (forall i :: 0 <= i < |ds| ==> DistinctIds(ds[i].pool))
    && forall i, c :: 0 <= i < |ds| && c in ds[i].pool ==> c in optional && c.category == Some(ds[i].category)
  }

  ghost predicate AllSupply(ds: seq<Deficit>, tuple: seq<seq<Candidate>>) {
    |tuple| == |ds| && forall i :: 0 <= i < |ds| ==> Supplies(ds[i], tuple[i])
  }

  function Owes(ds: seq<Deficit>, category: Text): nat {
    if ds == [] then 0 else Owes(ds[..|ds| - 1], category) + if ds[|ds| - 1].category == category then ds[|ds| - 1].size else 0
  }

  /** One combination for each deficit, flattened, is a selection that holds exactly what is owed. */
  lemma {:induction false} FlatSupplies(optional: seq<Candidate>, ds: seq<Deficit>, tuple: seq<seq<Candidate>>)
    requires DistinctIds(optional) && AreDeficits(optional, ds) && AllSupply(ds, tuple)
    ensures IsSelection(optional, Flat(tuple))
    ensures forall c :: c in Flat(tuple) ==> exists i :: 0 <= i < |ds| && c.category == Some(ds[i].category)
  {
    if ds != [] {
      var n := |ds| - 1;
      PrefixSupplies(optional, ds, tuple, n);
      FlatSupplies(optional, ds[..n], tuple[..n]);
      var left, right := Flat(tuple[..n]), tuple[n];
      assert Supplies(ds[n], right);
      forall x, y | x in left && y in right ensures x.id != y.id {
        var i :| 0 <= i < n && x.category == Some(ds[..n][i].category);
        assert ds[i].category != ds[n].category;
        assert DistinctBy(IdOf, optional);
        DistinctDiffers(IdOf, optional, x, y);
      }
      ConcatDistinct(left, right);
      forall c | c in left + right ensures exists i :: 0 <= i < |ds| && c.category == Some(ds[i].category) {
        if c in left {
          var i :| 0 <= i < n && c.category == Some(ds[..n][i].category);
          assert c.category == Some(ds[i].category);
        } else {
          assert c.category == Some(ds[n].category);
        }
      }
    }
  }

  lemma PrefixSupplies(optional: seq<Candidate>, ds: seq<Deficit>, tuple: seq<seq<Candidate>>, n: nat)
    requires AreDeficits(optional, ds) && AllSupply(ds, tuple) && n <= |ds|
    ensures AreDeficits(optional, ds[..n]) && AllSupply(ds[..n], tuple[..n])
  {
    forall i, c | 0 <= i < n && c in ds[..n][i].pool ensures c in optional && c.category == Some(ds[..n][i].category) {
      assert c in ds[i].pool;
    }
    forall i | 0 <= i < n ensures Supplies(ds[..n][i], tuple[..n][i]) { assert Supplies(ds[i], tuple[i]); }
  }

  lemma {:induction false} FlatCounts(optional: seq<Candidate>, ds: seq<Deficit>, tuple: seq<seq<Candidate>>, category: Text)
    requires AreDeficits(optional, ds) && AllSupply(ds, tuple)
    ensures Count(Flat(tuple), category) == Owes(ds, category)
  {
    if ds != [] {
      var n := |ds| - 1;
      PrefixSupplies(optional, ds, tuple, n);
      FlatCounts(optional, ds[..n], tuple[..n], category);
      CountConcat(Flat(tuple[..n]), tuple[n], category);
      assert Supplies(ds[n], tuple[n]);
      SuppliedCount(ds[n], tuple[n], category);
    }
  }

  lemma SuppliedCount(d: Deficit, picks: seq<Candidate>, category: Text)
    requires Supplies(d, picks) && forall c :: c in d.pool ==> c.category == Some(d.category)
    ensures Count(picks, category) == if d.category == category then d.size else 0
  {
    if d.category == category { CountThroughout(picks, category); } else { CountElsewhere(picks, category); }
  }

  // ---------- the deficits of a policy ----------

  lemma {:induction false} OwesConcat(a: seq<Deficit>, b: seq<Deficit>, category: Text)
    ensures Owes(a + b, category) == Owes(a, category) + Owes(b, category)
  {
    if b == [] {
      assert a + b == a;
    } else {
      var n := |b| - 1;
      OwesConcat(a, b[..n], category);
      assert (a + b)[..|a + b| - 1] == a + b[..n] && (a + b)[|a + b| - 1] == b[n];
    }
  }

  lemma {:induction false} DeficitsAreDeficits(required: seq<Candidate>, optional: seq<Candidate>, ks: seq<Constraint>)
    requires DistinctIds(optional) && DistinctCategories(ks)
    ensures AreDeficits(optional, DeficitsOf(required, optional, ks))
    ensures forall d :: d in DeficitsOf(required, optional, ks) ==> d.category in Categories(ks)
  {
    if ks != [] {
      var n := |ks| - 1;
      LastCategory(ks);
      DeficitsAreDeficits(required, optional, ks[..n]);
      PreferredFacts(optional, ks[n].category);
      var left, right := DeficitsOf(required, optional, ks[..n]), DeficitOf(required, optional, ks[n]);
      var ds := left + right;
      forall i, j | 0 <= i < j < |ds| ensures ds[i].category != ds[j].category {
        if i < |left| <= j { assert left[i] in left; }
      }
      forall i | 0 <= i < |ds| ensures DistinctIds(ds[i].pool) && forall c :: c in ds[i].pool ==> c in optional && c.category == Some(ds[i].category) {
        if i < |left| { assert ds[i] == left[i]; }
      }
    }
  }

  lemma DeficitOwes(required: seq<Candidate>, optional: seq<Candidate>, k: Constraint, category: Text)
    ensures Owes(DeficitOf(required, optional, k), category) == if category == k.category then Needed(k, required) else 0
  {
    if Needed(k, required) > 0 {
      var d := Deficit(k.category, Preferred(optional, k.category), Needed(k, required));
      assert [d][..0] == [];
    }
  }

  lemma OwesStep(required: seq<Candidate>, optional: seq<Candidate>, ks: seq<Constraint>, category: Text)
    requires ks != []
    ensures Owes(DeficitsOf(required, optional, ks), category) ==
      Owes(DeficitsOf(required, optional, ks[..|ks| - 1]), category)
      + if category == ks[|ks| - 1].category then Needed(ks[|ks| - 1], required) else 0
  {
    var n := |ks| - 1;
    DeficitOwes(required, optional, ks[n], category);
    OwesConcat(DeficitsOf(required, optional, ks[..n]), DeficitOf(required, optional, ks[n]), category);
  }

  /** What the constraints of one category need together. */
  function NeededBy(required: seq<Candidate>, ks: seq<Constraint>, category: Text): nat {
    if ks == [] then 0
    else NeededBy(required, ks[..|ks| - 1], category) + if category == ks[|ks| - 1].category then Needed(ks[|ks| - 1], required) else 0
  }

  lemma {:induction false} OwesAll(required: seq<Candidate>, optional: seq<Candidate>, ks: seq<Constraint>, category: Text)
    ensures Owes(DeficitsOf(required, optional, ks), category) == NeededBy(required, ks, category)
  {
    if ks != [] {
      OwesStep(required, optional, ks, category);
      OwesAll(required, optional, ks[..|ks| - 1], category);
    }
  }

  lemma {:induction false} NeededElsewhere(required: seq<Candidate>, ks: seq<Constraint>, category: Text)
    requires forall i :: 0 <= i < |ks| ==> ks[i].category != category
    ensures NeededBy(required, ks, category) == 0
  {
    if ks != [] { NeededElsewhere(required, ks[..|ks| - 1], category); }
  }

  lemma {:induction false} NeededOnce(required: seq<Candidate>, ks: seq<Constraint>, i: nat)
    requires DistinctCategories(ks) && i < |ks|
    ensures NeededBy(required, ks, ks[i].category) == Needed(ks[i], required)
  {
    var n := |ks| - 1;
    if i == n { NeededElsewhere(required, ks[..n], ks[n].category); } else { NeededOnce(required, ks[..n], i); }
  }

  /** The deficits owe each category exactly its shortfall. */
  lemma OwesNeeded(required: seq<Candidate>, optional: seq<Candidate>, ks: seq<Constraint>, i: nat)
    requires DistinctCategories(ks) && i < |ks|
    ensures Owes(DeficitsOf(required, optional, ks), ks[i].category) == Needed(ks[i], required)
  {
    OwesAll(required, optional, ks, ks[i].category);
    NeededOnce(required, ks, i);
  }

  /** Each part of a tuple of the product supplies its deficit. */
  lemma TupleSupplies(optional: seq<Candidate>, ds: seq<Deficit>, tuple: seq<seq<Candidate>>)
    requires AreDeficits(optional, ds) && tuple in Product(AllCombos(ds))
    ensures AllSupply(ds, tuple)
  {
    ProductMembers(AllCombos(ds), tuple);
    forall i | 0 <= i < |ds| ensures Supplies(ds[i], tuple[i]) { CombosSupply(ds[i], tuple[i]); }
  }

  lemma BaseCounts(required: seq<Candidate>, optional: seq<Candidate>, ks: seq<Constraint>, tuple: seq<seq<Candidate>>, i: nat)
    requires DistinctIds(optional) && DistinctCategories(ks) && i < |ks|
    requires AreDeficits(optional, DeficitsOf(required, optional, ks)) && AllSupply(DeficitsOf(required, optional, ks), tuple)
    ensures Count(Flat(tuple), ks[i].category) == Needed(ks[i], required)
    ensures Count(required + Flat(tuple), ks[i].category) == Count(required, ks[i].category) + Needed(ks[i], required)
  {
    FlatCounts(optional, DeficitsOf(required, optional, ks), tuple, ks[i].category);
    OwesNeeded(required, optional, ks, i);
    CountConcat(required, Flat(tuple), ks[i].category);
  }

  /** A hard base satisfies every constraint and holds exactly what each category needs. */
  lemma BaseMeetsPolicy(required: seq<Candidate>, optional: seq<Candidate>, ks: seq<Constraint>, tuple: seq<seq<Candidate>>)
    requires DistinctIds(optional) && WellFormedPolicy(ks) && Countable(required, optional, ks)
    requires tuple in Product(AllCombos(DeficitsOf(required, optional, ks)))
    ensures IsSelection(optional, Flat(tuple)) && CountsMeet(ks, required + Flat(tuple))
    ensures forall i :: 0 <= i < |ks| ==> Count(Flat(tuple), ks[i].category) == Needed(ks[i], required)
  {
    var ds := DeficitsOf(required, optional, ks);
    DeficitsAreDeficits(required, optional, ks);
    TupleSupplies(optional, ds, tuple);
    FlatSupplies(optional, ds, tuple);
    forall i | 0 <= i < |ks|
      ensures Count(Flat(tuple), ks[i].category) == Needed(ks[i], required)
      ensures Meets(ks[i], Count(required + Flat(tuple), ks[i].category))
    {
      BaseCounts(required, optional, ks, tuple, i);
    }
  }

  // ---------- the first base ----------

  lemma FirstCombo(d: Deficit)
    requires d.size <= |d.pool|
    ensures CombosOf(d) != [] && CombosOf(d)[0] == Prefix(d.pool, d.size)
  {
    FirstIsAt(|d.pool|, d.size);
    assert Picks(d.pool, First(d.size)) == d.pool[..d.size];
  }

  lemma FlatConcat(a: seq<seq<Candidate>>, b: seq<seq<Candidate>>)
    requires |b| <= 1
    ensures Flat(a + b) == Flat(a) + if b == [] then [] else b[0]
  {
    if b == [] { assert a + b == a; } else { assert (a + b)[..|a|] == a; }
  }

  /** The preferred candidates of each deficit. */
  function Leading(ds: seq<Deficit>): (tuple: seq<seq<Candidate>>)
    ensures |tuple| == |ds| && forall i :: 0 <= i < |ds| ==> tuple[i] == Prefix(ds[i].pool, ds[i].size)
  {
    seq(|ds|, i requires 0 <= i < |ds| => Prefix(ds[i].pool, ds[i].size))
  }

  lemma LeadingStep(before: seq<Deficit>, required: seq<Candidate>, optional: seq<Candidate>, k: Constraint)
    ensures Flat(Leading(before + DeficitOf(required, optional, k))) ==
      Flat(Leading(before)) + Prefix(Preferred(optional, k.category), Needed(k, required))
  {
    var last := DeficitOf(required, optional, k);
    assert Leading(before + last) == Leading(before) + Leading(last);
    FlatConcat(Leading(before), Leading(last));
  }

  lemma {:induction false} LeadingIsCheapest(required: seq<Candidate>, optional: seq<Candidate>, ks: seq<Constraint>)
    ensures Flat(Leading(DeficitsOf(required, optional, ks))) == Cheapest(required, optional, ks)
  {
    if ks != [] {
      var n := |ks| - 1;
      LeadingIsCheapest(required, optional, ks[..n]);
      LeadingStep(DeficitsOf(required, optional, ks[..n]), required, optional, ks[n]);
    }
  }

  lemma {:induction false} DeficitsFit(required: seq<Candidate>, optional: seq<Candidate>, ks: seq<Constraint>)
    requires DistinctIds(optional) && Reachable(required, optional, ks)
    ensures forall d :: d in DeficitsOf(required, optional, ks) ==> d.size <= |d.pool|
  {
    if ks != [] {
      var n := |ks| - 1;
      DeficitsFit(required, optional, ks[..n]);
      PreferredFacts(optional, ks[n].category);
    }
  }

  /** The first base is the allocator's own choice. */
  lemma FirstBaseIsCheapest(required: seq<Candidate>, optional: seq<Candidate>, ks: seq<Constraint>)
    requires DistinctIds(optional) && Reachable(required, optional, ks)
    ensures var bases := Product(AllCombos(DeficitsOf(required, optional, ks)));
      bases != [] && Flat(bases[0]) == Cheapest(required, optional, ks)
  {
    var ds := DeficitsOf(required, optional, ks);
    var lists := AllCombos(ds);
    DeficitsFit(required, optional, ks);
    forall i | 0 <= i < |ds| ensures lists[i] != [] && lists[i][0] == Prefix(ds[i].pool, ds[i].size) {
      assert ds[i] in ds;
      FirstCombo(ds[i]);
    }
    ProductFirst(lists);
    assert Firsts(lists) == Leading(ds);
    LeadingIsCheapest(required, optional, ks);
  }
}

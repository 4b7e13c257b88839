/** The cheapest candidates that satisfy every category minimum, and why nothing that satisfies them costs
less. */
module Minimums {
  import opened Options
  import opened Utf16
  import opened Sorting
  import opened Selections
  import opened Choices

  // ---------- orders ----------

  predicate IdAtMost(a: Candidate, b: Candidate) { AtMost(a.id, b.id) }

  /** Cheaper first, then higher score, then identifier. */
  predicate MinimumAtMost(a: Candidate, b: Candidate) {
    a.tokens < b.tokens || (a.tokens == b.tokens && ScoreAtMost(a, b))
  }

  /** Higher score first, then identifier. */
  predicate ScoreAtMost(a: Candidate, b: Candidate) {
    a.score > b.score || (a.score == b.score && AtMost(a.id, b.id))
  }

  predicate CategoryAtMost(j: Constraint, k: Constraint) { AtMost(j.category, k.category) }

  lemma OrdersArePreorders()
    ensures TotalPreorder(IdAtMost) && TotalPreorder(MinimumAtMost) && TotalPreorder(ScoreAtMost) && TotalPreorder(CategoryAtMost)
  {
    AtMostIsTotalOrder();
  }

  // ---------- what a minimum still needs ----------

  /** The shortfall the required candidates leave. */
  function Needed(k: Constraint, required: seq<Candidate>): nat {
    var have := Count(required, k.category);
    if k.minBlocks.Some? && k.minBlocks.value > have then k.minBlocks.value - have else 0
  }

  function IsOf(category: Text): Candidate -> bool { (c: Candidate) => c.category == Some(category) }

  /** The candidates of a category, in the allocator's preference. */
  function Preferred(optional: seq<Candidate>, category: Text): seq<Candidate> {
    Sort(MinimumAtMost, Keep(optional, IsOf(category)))
  }

  function Prefix(cs: seq<Candidate>, n: nat): seq<Candidate> { if n <= |cs| then cs[..n] else cs }

  /** The preferred candidates of every category, as many as it needs. */
  function Cheapest(required: seq<Candidate>, optional: seq<Candidate>, ks: seq<Constraint>): seq<Candidate> {
    if ks == [] then []
    else
      var k := ks[|ks| - 1];
      Cheapest(required, optional, ks[..|ks| - 1]) + Prefix(Preferred(optional, k.category), Needed(k, required))
  }

  /** Every shortfall can be made up. */
  ghost predicate Reachable(required: seq<Candidate>, optional: seq<Candidate>, ks: seq<Constraint>) {
    forall i :: 0 <= i < |ks| ==> Needed(ks[i], required) <= Count(optional, ks[i].category)
  }

  // ---------- one category ----------

  lemma PreferredFacts(optional: seq<Candidate>, category: Text)
    requires DistinctIds(optional)
    ensures var p := Preferred(optional, category);
      && multiset(p) == multiset(Keep(optional, IsOf(category))) && SortedBy(MinimumAtMost, p) && DistinctIds(p)
      && |p| == Count(optional, category) && forall c :: c in p <==> c in optional && c.category == Some(category)
  {
    var kept := Keep(optional, IsOf(category));
    OrdersArePreorders();
    SortSorts(MinimumAtMost, kept);
    SortPermutes(MinimumAtMost, kept);
    KeepDistinct(optional, IsOf(category));
    RearrangedDistinct(kept, Preferred(optional, category));
    SameElements(kept, Preferred(optional, category));
    KeptCount(optional, category);
  }

  lemma {:induction false} KeptCount(cs: seq<Candidate>, category: Text)
    ensures |Keep(cs, IsOf(category))| == Count(cs, category)
  {
    if cs != [] { KeptCount(cs[..|cs| - 1], category); }
  }

  function One(): Candidate -> nat { (c: Candidate) => 1 }

  /** No `d` candidates of a list sorted by cost are cheaper than its first `d`. */
  lemma {:induction false} FirstAreCheapest(p: seq<Candidate>, ids: set<Text>, d: nat)
    requires SortedBy(MinimumAtMost, p) && d <= Total(p, Among(ids, One()))
    ensures d <= |p| && Total(p[..d], Tokens()) <= Total(p, Among(ids, Tokens()))
  {
    if p != [] {
      var n := |p| - 1;
      var before := p[..n];
      if p[n].id in ids && d > 0 {
        FirstAreCheapest(before, ids, d - 1);
        assert before[..d - 1] == p[..d - 1] == p[..d][..d - 1];
        assert d - 1 < n ==> MinimumAtMost(p[d - 1], p[n]);
      } else {
        FirstAreCheapest(before, ids, d);
        assert before[..d] == p[..d];
      }
    }
  }

  /** What a category's candidates in a selection cost. */
  function Inside(category: Text, ids: set<Text>): Candidate -> nat { Where(IsOf(category), Among(ids, Tokens())) }

  lemma CategoryIsCheapest(optional: seq<Candidate>, category: Text, ids: set<Text>, d: nat)
    requires DistinctIds(optional) && d <= Total(optional, Among(ids, OfCategory(category)))
    ensures d <= Count(optional, category)
    ensures Total(Prefix(Preferred(optional, category), d), Tokens()) <= Total(optional, Inside(category, ids))
  {
    var p, kept := Preferred(optional, category), Keep(optional, IsOf(category));
    PreferredFacts(optional, category);
    TotalPermutes(p, kept, Among(ids, One()));
    KeepTotal(optional, IsOf(category), Among(ids, One()));
    TotalSame(optional, Among(ids, OfCategory(category)), Where(IsOf(category), Among(ids, One())));
    FirstAreCheapest(p, ids, d);
    TotalPermutes(p, kept, Among(ids, Tokens()));
    KeepTotal(optional, IsOf(category), Among(ids, Tokens()));
  }

  // ---------- all categories ----------

  function IsOfAny(categories: set<Text>): Candidate -> bool {
    (c: Candidate) => c.category.Some? && c.category.value in categories
  }

  function Categories(ks: seq<Constraint>): set<Text> { set k | k in ks :: k.category }

  lemma LastCategory(ks: seq<Constraint>)
    requires ks != [] && DistinctCategories(ks)
    ensures var n := |ks| - 1; ks[n].category !in Categories(ks[..n]) && Categories(ks) == Categories(ks[..n]) + {ks[n].category}
    ensures DistinctCategories(ks[..|ks| - 1])
  {
    var n := |ks| - 1;
    assert ks == ks[..n] + [ks[n]];
  }

  /** The chosen union costs no more than the selected candidates of the constrained categories. */
  lemma {:induction false} CheapestCostsLeast(required: seq<Candidate>, optional: seq<Candidate>, ks: seq<Constraint>, ids: set<Text>)
    requires DistinctIds(optional) && DistinctCategories(ks)
    requires forall i :: 0 <= i < |ks| ==> Needed(ks[i], required) <= Total(optional, Among(ids, OfCategory(ks[i].category)))
    ensures Total(Cheapest(required, optional, ks), Tokens()) <= Total(optional, Where(IsOfAny(Categories(ks)), Among(ids, Tokens())))
  {
    if ks != [] {
      var n := |ks| - 1;
      var k, before := ks[n], ks[..n];
      LastCategory(ks);
      CheapestCostsLeast(required, optional, before, ids);
      CategoryIsCheapest(optional, k.category, ids, Needed(k, required));
      TotalConcat(Cheapest(required, optional, before), Prefix(Preferred(optional, k.category), Needed(k, required)), Tokens());
      TotalSplits(optional, Where(IsOfAny(Categories(before)), Among(ids, Tokens())), Inside(k.category, ids),
                  Where(IsOfAny(Categories(ks)), Among(ids, Tokens())));
    }
  }

  // ---------- what the union holds ----------

  lemma {:induction false} CountElsewhere(cs: seq<Candidate>, category: Text)
    requires forall c :: c in cs ==> c.category != Some(category)
    ensures Count(cs, category) == 0
  {
    if cs != [] { CountElsewhere(cs[..|cs| - 1], category); }
  }

  lemma {:induction false} CountThroughout(cs: seq<Candidate>, category: Text)
    requires forall c :: c in cs ==> c.category == Some(category)
    ensures Count(cs, category) == |cs|
  {
    if cs != [] { CountThroughout(cs[..|cs| - 1], category); }
  }

  lemma PrefixFacts(required: seq<Candidate>, optional: seq<Candidate>, k: Constraint)
    requires DistinctIds(optional) && Needed(k, required) <= Count(optional, k.category)
    ensures var picks := Prefix(Preferred(optional, k.category), Needed(k, required));
      && DistinctIds(picks) && (forall c :: c in picks ==> c in optional && c.category == Some(k.category))
      && Count(picks, k.category) == Needed(k, required)
      && forall category :: category != k.category ==> Count(picks, category) == 0
  {
    PreferredFacts(optional, k.category);
    var picks := Prefix(Preferred(optional, k.category), Needed(k, required));
    assert forall c :: c in picks ==> c in Preferred(optional, k.category);
    CountThroughout(picks, k.category);
    forall category | category != k.category ensures Count(picks, category) == 0 { CountElsewhere(picks, category); }
  }

  lemma ConcatDistinct(a: seq<Candidate>, b: seq<Candidate>)
    requires DistinctIds(a) && DistinctIds(b) && forall x, y :: x in a && y in b ==> x.id != y.id
    ensures DistinctIds(a + b)
  {
    var ab := a + b;
    forall i, j | 0 <= i < j < |ab| ensures ab[i].id != ab[j].id {
      if i < |a| <= j { assert ab[i] in a && ab[j] in b; }
    }
  }

  /** The union names different optional candidates, each of a constrained category. */
  lemma {:induction false} CheapestIsSelection(required: seq<Candidate>, optional: seq<Candidate>, ks: seq<Constraint>)
    requires DistinctIds(optional) && DistinctCategories(ks) && Reachable(required, optional, ks)
    ensures IsSelection(optional, Cheapest(required, optional, ks))
    ensures forall c :: c in Cheapest(required, optional, ks) ==> c.category.Some? && c.category.value in Categories(ks)
  {
    if ks != [] {
      var k, before := ks[|ks| - 1], ks[..|ks| - 1];
      LastCategory(ks);
      CheapestIsSelection(required, optional, before);
      PrefixFacts(required, optional, k);
      var left, right := Cheapest(required, optional, before), Prefix(Preferred(optional, k.category), Needed(k, required));
      forall x, y | x in left && y in right ensures x.id != y.id {
        assert DistinctBy(IdOf, optional);
        DistinctDiffers(IdOf, optional, x, y);
      }
      ConcatDistinct(left, right);
    }
  }

  lemma CheapestStep(required: seq<Candidate>, optional: seq<Candidate>, ks: seq<Constraint>, category: Text)
    requires DistinctIds(optional) && ks != [] && Needed(ks[|ks| - 1], required) <= Count(optional, ks[|ks| - 1].category)
    ensures Count(Cheapest(required, optional, ks), category) ==
      Count(Cheapest(required, optional, ks[..|ks| - 1]), category)
      + if category == ks[|ks| - 1].category then Needed(ks[|ks| - 1], required) else 0
  {
    var k, before := ks[|ks| - 1], ks[..|ks| - 1];
    PrefixFacts(required, optional, k);
    CountConcat(Cheapest(required, optional, before), Prefix(Preferred(optional, k.category), Needed(k, required)), category);
  }

  lemma {:induction false} CheapestElsewhere(required: seq<Candidate>, optional: seq<Candidate>, ks: seq<Constraint>, category: Text)
    requires DistinctIds(optional) && Reachable(required, optional, ks)
    requires forall i :: 0 <= i < |ks| ==> ks[i].category != category
    ensures Count(Cheapest(required, optional, ks), category) == 0
  {
    if ks != [] {
      CheapestStep(required, optional, ks, category);
      CheapestElsewhere(required, optional, ks[..|ks| - 1], category);
    }
  }

  /** It holds exactly what each category needs. */
  lemma {:induction false} CheapestCount(required: seq<Candidate>, optional: seq<Candidate>, ks: seq<Constraint>, i: nat)
    requires DistinctIds(optional) && DistinctCategories(ks) && Reachable(required, optional, ks) && i < |ks|
    ensures Count(Cheapest(required, optional, ks), ks[i].category) == Needed(ks[i], required)
  {
    var n := |ks| - 1;
    CheapestStep(required, optional, ks, ks[i].category);
    if i == n {
      CheapestElsewhere(required, optional, ks[..n], ks[i].category);
    } else {
      CheapestCount(required, optional, ks[..n], i);
    }
  }
}

/** The order in which a settled selection may give back optional candidates without leaving the policy. */
module Eviction {
  import opened Options
  import opened Utf16
  import opened Sorting
  import opened Selections
  import opened Choices
  import opened Allocation
  import opened Precedence

  /** Lower score first, then the larger identifier. */
  predicate EvictAtMost(a: Candidate, b: Candidate) {
    a.score < b.score || (a.score == b.score && AtMost(b.id, a.id))
  }

  lemma EvictIsPreorder()
    ensures TotalPreorder(EvictAtMost)
  {
    AtMostIsTotalOrder();
  }

  /** Giving this candidate back would break its category's minimum. */
  ghost predicate IsProtected(eligible: seq<Candidate>, ks: seq<Constraint>, ids: set<Text>, c: Candidate) {
    var k := Governing(ks, c.category);
    k.Some? && k.value.minBlocks.Some? && Blocks(eligible, ids, k.value.category) <= k.value.minBlocks.value
  }

  /** A candidate may go exactly when its minimum can spare it. */
  lemma DropsSafely(eligible: seq<Candidate>, ks: seq<Constraint>, ids: set<Text>, c: Candidate)
    requires DistinctIds(eligible) && DistinctCategories(ks) && MeetsPolicy(eligible, ks, ids)
    requires c in eligible && c.id in ids && !c.required
    ensures MeetsPolicy(eligible, ks, ids - {c.id}) <==> !IsProtected(eligible, ks, ids, c)
  {
    var left := ids - {c.id};
    forall i | 0 <= i < |ks|
      ensures Blocks(eligible, ids, ks[i].category) == Blocks(eligible, left, ks[i].category) + OfCategory(ks[i].category)(c)
      ensures Meets(ks[i], Blocks(eligible, left, ks[i].category)) <==>
        !(c.category == Some(ks[i].category) && ks[i].minBlocks.Some? && Blocks(eligible, ids, ks[i].category) <= ks[i].minBlocks.value)
    {
      WithoutOne(eligible, ids, c, OfCategory(ks[i].category));
      assert Meets(ks[i], Blocks(eligible, ids, ks[i].category));
    }
    forall x | x in eligible && x.required ensures x.id in left {
      if x.id == c.id { SameIdSame(eligible, x, c); }
    }
    var k := Governing(ks, c.category);
    if k.Some? {
      var i :| 0 <= i < |ks| && ks[i] == k.value;
      forall j | 0 <= j < |ks| && c.category == Some(ks[j].category) ensures ks[j] == k.value { GoverningIs(ks, j); }
      if IsProtected(eligible, ks, ids, c) { assert !Meets(ks[i], Blocks(eligible, left, ks[i].category)); }
    }
  }

  /** Protection outlasts further removals. */
  lemma StaysProtected(eligible: seq<Candidate>, ks: seq<Constraint>, ids: set<Text>, left: set<Text>, c: Candidate)
    requires left <= ids && IsProtected(eligible, ks, ids, c)
    ensures IsProtected(eligible, ks, left, c)
  {
    ContentMonotone(eligible, left, ids, OfCategory(Governing(ks, c.category).value.category));
  }

  /** The identifiers an order's first `n` entries give back. */
  function Given(order: seq<Text>, n: nat): set<Text>
    requires n <= |order|
  {
    set i | 0 <= i < n :: order[i]
  }

  /** Every prefix of the order can be given back. */
  ghost predicate EveryPrefixSafe(eligible: seq<Candidate>, ks: seq<Constraint>, ids: set<Text>, order: seq<Text>) {
    forall n :: 0 <= n <= |order| ==> MeetsPolicy(eligible, ks, ids - Given(order, n))
  }

  lemma OneMoreSafe(eligible: seq<Candidate>, ks: seq<Constraint>, ids: set<Text>, order: seq<Text>, id: Text)
    requires EveryPrefixSafe(eligible, ks, ids, order)
    requires MeetsPolicy(eligible, ks, ids - Given(order, |order|) - {id})
    ensures EveryPrefixSafe(eligible, ks, ids, order + [id])
    ensures Given(order + [id], |order| + 1) == Given(order, |order|) + {id}
  {
    var more := order + [id];
    forall n | 0 <= n <= |order| ensures Given(more, n) == Given(order, n) {
      assert forall i :: 0 <= i < n ==> more[i] == order[i];
    }
    forall x ensures x in Given(more, |more|) <==> x in Given(order, |order|) + {id} {
      if x in Given(order, |order|) { var i :| 0 <= i < |order| && order[i] == x; assert more[i] == x; }
      if x == id { assert more[|order|] == x; }
    }
    assert ids - Given(more, |more|) == ids - Given(order, |order|) - {id};
  }

  /** The counters of categories with a minimum count what is left. */
  ghost predicate CountsLeft(eligible: seq<Candidate>, ks: seq<Constraint>, counts: map<Text, nat>, left: set<Text>) {
    forall i :: 0 <= i < |ks| && ks[i].minBlocks.Some? ==> Counted(counts, ks[i].category) == Blocks(eligible, left, ks[i].category)
  }

  /** The counters after one candidate is given back. */
  function Spare(counts: map<Text, nat>, k: Option<Constraint>): map<Text, nat>
    requires k.Some? && k.value.minBlocks.Some? ==> Counted(counts, k.value.category) > 0
  {
    if k.Some? && k.value.minBlocks.Some? then counts[k.value.category := Counted(counts, k.value.category) - 1] else counts
  }

  /** Whether the counters let one more candidate of a category go. */
  predicate Spares(counts: map<Text, nat>, k: Option<Constraint>) {
    k.Some? && k.value.minBlocks.Some? ==> Counted(counts, k.value.category) > k.value.minBlocks.value
  }

  lemma CountersSpare(eligible: seq<Candidate>, ks: seq<Constraint>, counts: map<Text, nat>, left: set<Text>, c: Candidate)
    requires DistinctIds(eligible) && DistinctCategories(ks) && CountsLeft(eligible, ks, counts, left)
    requires c in eligible && c.id in left
    ensures var k := Governing(ks, c.category);
      && (k.Some? && k.value.minBlocks.Some? ==> Counted(counts, k.value.category) > 0)
      && CountsLeft(eligible, ks, Spare(counts, k), left - {c.id})
  {
    var k := Governing(ks, c.category);
    if k.Some? && k.value.minBlocks.Some? {
      var i :| 0 <= i < |ks| && ks[i] == k.value;
      WithoutOne(eligible, left, c, OfCategory(ks[i].category));
    }
    forall i | 0 <= i < |ks| && ks[i].minBlocks.Some?
      ensures Counted(Spare(counts, k), ks[i].category) == Blocks(eligible, left - {c.id}, ks[i].category)
    {
      WithoutOne(eligible, left, c, OfCategory(ks[i].category));
      GoverningIs(ks, i);
    }
  }

  /** What an order leaves of a selection. */
  function Remaining(ids: set<Text>, order: seq<Text>): set<Text> { ids - Given(order, |order|) }

  function IdList(cs: seq<Candidate>): (ids: seq<Text>)
    ensures |ids| == |cs| && forall i :: 0 <= i < |ids| ==> ids[i] == cs[i].id
  {
    seq(|cs|, i requires 0 <= i < |cs| => cs[i].id)
  }

  /** The candidates of a list that are given back, one after another, unless protected by then. */
  ghost function GivenBack(eligible: seq<Candidate>, ks: seq<Constraint>, ids: set<Text>, sorted: seq<Candidate>): seq<Candidate> {
    if sorted == [] then []
    else
      var before := GivenBack(eligible, ks, ids, sorted[..|sorted| - 1]);
      var c := sorted[|sorted| - 1];
      if IsProtected(eligible, ks, ids - Ids(before), c) then before else before + [c]
  }

  /** They are different candidates of the list, in its order. */
  lemma {:induction false} GivenBackInOrder(eligible: seq<Candidate>, ks: seq<Constraint>, ids: set<Text>, sorted: seq<Candidate>)
    requires DistinctIds(sorted) && SortedBy(GivenBackFirst, sorted)
    ensures var given := GivenBack(eligible, ks, ids, sorted);
      DistinctIds(given) && SortedBy(GivenBackFirst, given) && forall c :: c in given ==> c in sorted
  {
    if sorted != [] {
      var n := |sorted| - 1;
      GivenBackInOrder(eligible, ks, ids, sorted[..n]);
      var before := GivenBack(eligible, ks, ids, sorted[..n]);
      forall i | 0 <= i < |before| ensures before[i].id != sorted[n].id && GivenBackFirst(before[i], sorted[n]) && before[i] in sorted {
        assert before[i] in sorted[..n];
        var j :| 0 <= j < n && sorted[..n][j] == before[i];
        assert sorted[j] == before[i];
      }
    }
  }

  lemma GivenIsIds(cs: seq<Candidate>)
    ensures Given(IdList(cs), |cs|) == Ids(cs)
  {
    forall id ensures id in Given(IdList(cs), |cs|) <==> id in Ids(cs) {
      if id in Ids(cs) {
        var c :| c in cs && c.id == id;
        var i :| 0 <= i < |cs| && cs[i] == c;
        assert IdList(cs)[i] == id;
      }
      if id in Given(IdList(cs), |cs|) {
        var i :| 0 <= i < |cs| && IdList(cs)[i] == id;
        assert cs[i] in cs;
      }
    }
  }

  lemma OneMoreGivenBack(eligible: seq<Candidate>, ks: seq<Constraint>, ids: set<Text>, before: seq<Candidate>, c: Candidate)
    requires DistinctIds(eligible) && DistinctCategories(ks) && EveryPrefixSafe(eligible, ks, ids, IdList(before))
    requires c in eligible && c.id in ids && !c.required && c.id !in Ids(before)
    requires !IsProtected(eligible, ks, ids - Ids(before), c)
    ensures EveryPrefixSafe(eligible, ks, ids, IdList(before + [c]))
  {
    GivenIsIds(before);
    assert MeetsPolicy(eligible, ks, ids - Given(IdList(before), |before|));
    DropsSafely(eligible, ks, ids - Ids(before), c);
    OneMoreSafe(eligible, ks, ids, IdList(before), c.id);
    assert IdList(before + [c]) == IdList(before) + [c.id];
  }

  /** Whatever is given back leaves a selection the policy allows, at every moment. */
  lemma {:induction false} GivenBackSafe(eligible: seq<Candidate>, ks: seq<Constraint>, ids: set<Text>, sorted: seq<Candidate>)
    requires DistinctIds(eligible) && DistinctCategories(ks) && MeetsPolicy(eligible, ks, ids) && IsSelection(eligible, sorted)
    requires forall c :: c in sorted ==> c.id in ids && !c.required
    ensures EveryPrefixSafe(eligible, ks, ids, IdList(GivenBack(eligible, ks, ids, sorted)))
    ensures forall c :: c in GivenBack(eligible, ks, ids, sorted) ==> c in sorted
  {
    if sorted == [] {
      assert ids - Given([], 0) == ids;
    } else {
      var most, c := sorted[..|sorted| - 1], sorted[|sorted| - 1];
      assert sorted == most + [c];
      var before := GivenBack(eligible, ks, ids, most);
      GivenBackSafe(eligible, ks, ids, most);
      if !IsProtected(eligible, ks, ids - Ids(before), c) {
        LastIsNew(most, c, before);
        OneMoreGivenBack(eligible, ks, ids, before, c);
      }
    }
  }

  lemma LastIsNew(most: seq<Candidate>, c: Candidate, before: seq<Candidate>)
    requires DistinctIds(most + [c]) && forall x :: x in before ==> x in most
    ensures c.id !in Ids(before)
  {
    forall x | x in before ensures x.id != c.id {
      var i :| 0 <= i < |most| && most[i] == x;
      assert (most + [c])[i] == x && (most + [c])[|most|] == c;
    }
  }

  /** The first `i` candidates are decided: given back, or protected for good. */
  ghost predicate Progress(eligible: seq<Candidate>, ks: seq<Constraint>, ids: set<Text>, sorted: seq<Candidate>, i: nat, order: seq<Text>) {
    && i <= |sorted| && EveryPrefixSafe(eligible, ks, ids, order)
    && (forall j :: i <= j < |sorted| ==> sorted[j].id in Remaining(ids, order))
    && (forall j :: 0 <= j < i ==> sorted[j].id in order || IsProtected(eligible, ks, Remaining(ids, order), sorted[j]))
    && order == IdList(GivenBack(eligible, ks, ids, sorted[..i]))
  }

  lemma StepOfGivenBack(eligible: seq<Candidate>, ks: seq<Constraint>, ids: set<Text>, sorted: seq<Candidate>, i: nat, order: seq<Text>)
    requires i < |sorted| && order == IdList(GivenBack(eligible, ks, ids, sorted[..i]))
    ensures IdList(GivenBack(eligible, ks, ids, sorted[..i + 1])) ==
      if IsProtected(eligible, ks, Remaining(ids, order), sorted[i]) then order else order + [sorted[i].id]
  {
    var before := GivenBack(eligible, ks, ids, sorted[..i]);
    assert sorted[..i + 1][..i] == sorted[..i];
    GivenIsIds(before);
    assert IdList(before + [sorted[i]]) == IdList(before) + [sorted[i].id];
  }

  lemma KeepsOne(eligible: seq<Candidate>, ks: seq<Constraint>, ids: set<Text>, sorted: seq<Candidate>, i: nat, order: seq<Text>)
    requires i < |sorted| && Progress(eligible, ks, ids, sorted, i, order)
    requires IsProtected(eligible, ks, Remaining(ids, order), sorted[i])
    ensures Progress(eligible, ks, ids, sorted, i + 1, order)
  {
    StepOfGivenBack(eligible, ks, ids, sorted, i, order);
  }

  lemma GivesOne(eligible: seq<Candidate>, ks: seq<Constraint>, ids: set<Text>, sorted: seq<Candidate>, i: nat, order: seq<Text>)
    requires DistinctIds(sorted) && i < |sorted| && Progress(eligible, ks, ids, sorted, i, order)
    requires MeetsPolicy(eligible, ks, Remaining(ids, order) - {sorted[i].id}) && !IsProtected(eligible, ks, Remaining(ids, order), sorted[i])
    ensures Progress(eligible, ks, ids, sorted, i + 1, order + [sorted[i].id])
    ensures Remaining(ids, order + [sorted[i].id]) == Remaining(ids, order) - {sorted[i].id}
  {
    var id := sorted[i].id;
    var more, left := order + [id], Remaining(ids, order);
    StepOfGivenBack(eligible, ks, ids, sorted, i, order);
    OneMoreSafe(eligible, ks, ids, order, id);
    assert Remaining(ids, more) == left - {id};
    forall j | 0 <= j < i + 1 ensures sorted[j].id in more || IsProtected(eligible, ks, left - {id}, sorted[j]) {
      if j < i && sorted[j].id !in order { StaysProtected(eligible, ks, left, left - {id}, sorted[j]); }
    }
  }

  /** One decision of the loop. */
  lemma DecidesOne(eligible: seq<Candidate>, ks: seq<Constraint>, ids: set<Text>, sorted: seq<Candidate>, i: nat, order: seq<Text>, counts: map<Text, nat>)
    requires DistinctIds(eligible) && DistinctCategories(ks) && IsSelection(eligible, sorted)
    requires i < |sorted| && !sorted[i].required && Progress(eligible, ks, ids, sorted, i, order)
    requires CountsLeft(eligible, ks, counts, Remaining(ids, order))
    ensures Spares(counts, Governing(ks, sorted[i].category)) ==>
      Progress(eligible, ks, ids, sorted, i + 1, order + [sorted[i].id])
    ensures Spares(counts, Governing(ks, sorted[i].category)) ==>
      CountsLeft(eligible, ks, Spare(counts, Governing(ks, sorted[i].category)), Remaining(ids, order + [sorted[i].id]))
    ensures !Spares(counts, Governing(ks, sorted[i].category)) ==> Progress(eligible, ks, ids, sorted, i + 1, order)
  {
    var left, c := Remaining(ids, order), sorted[i];
    var k := Governing(ks, c.category);
    assert c in sorted;
    assert MeetsPolicy(eligible, ks, ids - Given(order, |order|));
    DropsSafely(eligible, ks, left, c);
    if IsProtected(eligible, ks, left, c) {
      KeepsOne(eligible, ks, ids, sorted, i, order);
    } else {
      CountersSpare(eligible, ks, counts, left, c);
      GivesOne(eligible, ks, ids, sorted, i, order);
    }
  }

  /** The optional candidates a selection gives back, in the published order. */
  ghost function EvictedFrom(eligible: seq<Candidate>, ks: seq<Constraint>, ids: set<Text>, optional: seq<Candidate>): seq<Candidate> {
    GivenBack(eligible, ks, ids, Sort(EvictAtMost, optional))
  }

  lemma EvictSorts(cs: seq<Candidate>)
    requires DistinctIds(cs)
    ensures SortedBy(GivenBackFirst, Sort(EvictAtMost, cs)) && forall c :: c in Sort(EvictAtMost, cs) <==> c in cs
  {
    EvictIsPreorder();
    SortSorts(EvictAtMost, cs);
    SortPermutes(EvictAtMost, cs);
    RearrangedDistinct(cs, Sort(EvictAtMost, cs));
  }

  lemma EvictedInOrder(eligible: seq<Candidate>, ks: seq<Constraint>, ids: set<Text>, optional: seq<Candidate>)
    requires DistinctIds(optional)
    ensures var given := EvictedFrom(eligible, ks, ids, optional);
      DistinctIds(given) && SortedBy(GivenBackFirst, given) && forall c :: c in given ==> c in optional
  {
    SortPermutes(EvictAtMost, optional);
    RearrangedDistinct(optional, Sort(EvictAtMost, optional));
    EvictSorts(optional);
    GivenBackInOrder(eligible, ks, ids, Sort(EvictAtMost, optional));
  }

  /** The policy allows the selection without this candidate. */
  ghost predicate IsSpare(eligible: seq<Candidate>, ks: seq<Constraint>, ids: set<Text>, c: Candidate) {
    c.id in ids && MeetsPolicy(eligible, ks, ids - {c.id})
  }

  /** Each entry is the candidate with the lowest score, and on equal scores the largest identifier, among those
  that could be given back at its turn. */
  ghost predicate GivesTheWorst(eligible: seq<Candidate>, ks: seq<Constraint>, ids: set<Text>, optional: seq<Candidate>, given: seq<Candidate>) {
    forall m, c :: 0 <= m < |given| && c in optional && c != given[m] && IsSpare(eligible, ks, ids - Ids(given[..m]), c) ==>
      GivenBackFirst(given[m], c)
  }

  /** A candidate that was passed over is protected from then on. */
  lemma {:induction false} PassedOverIsProtected(eligible: seq<Candidate>, ks: seq<Constraint>, ids: set<Text>, sorted: seq<Candidate>, c: Candidate)
    requires c in sorted && c.id !in Ids(GivenBack(eligible, ks, ids, sorted))
    ensures IsProtected(eligible, ks, ids - Ids(GivenBack(eligible, ks, ids, sorted)), c)
  {
    var n := |sorted| - 1;
    var before := GivenBack(eligible, ks, ids, sorted[..n]);
    var given := GivenBack(eligible, ks, ids, sorted);
    assert sorted == sorted[..n] + [sorted[n]];
    assert forall x :: x in before ==> x in given;
    if c == sorted[n] {
      assert given == if IsProtected(eligible, ks, ids - Ids(before), c) then before else before + [c];
      assert given == before + [c] ==> c in given;
    } else {
      PassedOverIsProtected(eligible, ks, ids, sorted[..n], c);
      StaysProtected(eligible, ks, ids - Ids(before), ids - Ids(given), c);
    }
  }

  /** Whatever is given back goes before everything that could have gone in its place. */
  lemma {:induction false} WorstGoesFirst(eligible: seq<Candidate>, ks: seq<Constraint>, ids: set<Text>, sorted: seq<Candidate>, m: nat, c: Candidate)
    requires SortedBy(GivenBackFirst, sorted) && m < |GivenBack(eligible, ks, ids, sorted)|
    requires c in sorted && c != GivenBack(eligible, ks, ids, sorted)[m] && c.id !in Ids(GivenBack(eligible, ks, ids, sorted)[..m])
    requires !IsProtected(eligible, ks, ids - Ids(GivenBack(eligible, ks, ids, sorted)[..m]), c)
    ensures GivenBackFirst(GivenBack(eligible, ks, ids, sorted)[m], c)
  {
    var n := |sorted| - 1;
    var before, given := GivenBack(eligible, ks, ids, sorted[..n]), GivenBack(eligible, ks, ids, sorted);
    assert sorted == sorted[..n] + [sorted[n]];
    if m < |before| {
      assert given[..m] == before[..m];
      GivenBackAmong(eligible, ks, ids, sorted[..n]);
      assert given[m] in sorted[..n];
      var j :| 0 <= j < n && sorted[j] == given[m];
      if c in sorted[..n] { WorstGoesFirst(eligible, ks, ids, sorted[..n], m, c); } else { assert c == sorted[n]; }
    } else {
      assert given[..m] == before;
      PassedOverIsProtected(eligible, ks, ids, sorted[..n], c);
    }
  }

  lemma {:induction false} GivenBackAmong(eligible: seq<Candidate>, ks: seq<Constraint>, ids: set<Text>, sorted: seq<Candidate>)
    ensures forall c :: c in GivenBack(eligible, ks, ids, sorted) ==> c in sorted
  {
    if sorted != [] { GivenBackAmong(eligible, ks, ids, sorted[..|sorted| - 1]); }
  }

  lemma EvictedAreWorst(eligible: seq<Candidate>, ks: seq<Constraint>, ids: set<Text>, optional: seq<Candidate>)
    requires DistinctIds(eligible) && DistinctCategories(ks) && IsSelection(eligible, optional)
    requires forall c :: c in optional ==> !c.required
    requires EveryPrefixSafe(eligible, ks, ids, IdList(EvictedFrom(eligible, ks, ids, optional)))
    ensures GivesTheWorst(eligible, ks, ids, optional, EvictedFrom(eligible, ks, ids, optional))
  {
    var sorted, given := Sort(EvictAtMost, optional), EvictedFrom(eligible, ks, ids, optional);
    EvictSorts(optional);
    forall m, c | 0 <= m < |given| && c in optional && c != given[m] && IsSpare(eligible, ks, ids - Ids(given[..m]), c)
      ensures GivenBackFirst(given[m], c)
    {
      GivenPrefix(given, m);
      assert MeetsPolicy(eligible, ks, ids - Given(IdList(given), m));
      DropsSafely(eligible, ks, ids - Ids(given[..m]), c);
      WorstGoesFirst(eligible, ks, ids, sorted, m, c);
    }
  }

  lemma GivenPrefix(given: seq<Candidate>, m: nat)
    requires m <= |given|
    ensures Given(IdList(given), m) == Ids(given[..m])
  {
    GivenIsIds(given[..m]);
    assert forall i :: 0 <= i < m ==> IdList(given[..m])[i] == IdList(given)[i];
    assert Given(IdList(given), m) == Given(IdList(given[..m]), m);
  }

  /** Nothing was given back while something worse that the policy could spare is kept. */
  ghost predicate KeepsTheBest(eligible: seq<Candidate>, ks: seq<Constraint>, ids: set<Text>, kept: set<Text>) {
    forall g, c :: g in eligible && g.id in ids - kept && c in eligible && !c.required && IsSpare(eligible, ks, kept, c) ==>
      GivenBackFirst(g, c)
  }

  /** What is spare later was spare before. */
  lemma SpareBefore(eligible: seq<Candidate>, ks: seq<Constraint>, left: set<Text>, kept: set<Text>, c: Candidate)
    requires DistinctIds(eligible) && DistinctCategories(ks) && kept <= left && c in eligible && !c.required
    requires MeetsPolicy(eligible, ks, left) && MeetsPolicy(eligible, ks, kept) && IsSpare(eligible, ks, kept, c)
    ensures IsSpare(eligible, ks, left, c)
  {
    DropsSafely(eligible, ks, left, c);
    DropsSafely(eligible, ks, kept, c);
    if IsProtected(eligible, ks, left, c) { StaysProtected(eligible, ks, left, kept, c); }
  }

  /** Any prefix of the order leaves the best. */
  lemma PrefixKeepsBest(eligible: seq<Candidate>, ks: seq<Constraint>, ids: set<Text>, optional: seq<Candidate>, given: seq<Candidate>, n: nat)
    requires DistinctIds(eligible) && DistinctCategories(ks) && n <= |given|
    requires EveryPrefixSafe(eligible, ks, ids, IdList(given)) && GivesTheWorst(eligible, ks, ids, optional, given)
    requires (forall c :: c in given ==> c in eligible) && forall c :: c in eligible && c.id in ids && !c.required ==> c in optional
    ensures KeepsTheBest(eligible, ks, ids, ids - Given(IdList(given), n))
  {
    var kept := ids - Given(IdList(given), n);
    forall g, c | g in eligible && g.id in ids - kept && c in eligible && !c.required && IsSpare(eligible, ks, kept, c)
      ensures GivenBackFirst(g, c)
    {
      var m :| 0 <= m < n && IdList(given)[m] == g.id;
      assert given[m] in given;
      SameIdSame(eligible, given[m], g);
      GivenPrefix(given, m);
      GivenGrows(IdList(given), m, n);
      assert MeetsPolicy(eligible, ks, ids - Given(IdList(given), m)) && MeetsPolicy(eligible, ks, kept);
      SpareBefore(eligible, ks, ids - Ids(given[..m]), kept, c);
    }
  }

  lemma GivenGrows(order: seq<Text>, m: nat, n: nat)
    requires m <= n <= |order|
    ensures Given(order, m) <= Given(order, n)
  {
  }

  /** The published eviction order of a selection: different optional candidates from the lowest score, ties
  from the largest identifier; every prefix is safe, and once all of it is given back no other optional
  candidate can be. */
  method EvictionOrder(ghost eligible: seq<Candidate>, ks: seq<Constraint>, optional: seq<Candidate>, selected: map<Text, nat>, ghost ids: set<Text>)
    returns (order: seq<Text>, ghost given: seq<Candidate>)
    requires DistinctIds(eligible) && DistinctCategories(ks) && MeetsPolicy(eligible, ks, ids) && CountsLeft(eligible, ks, selected, ids)
    requires IsSelection(eligible, optional) && forall c :: c in optional ==> c.id in ids && !c.required
    ensures order == IdList(given) && given == EvictedFrom(eligible, ks, ids, optional)
    ensures DistinctIds(given) && SortedBy(GivenBackFirst, given) && forall c :: c in given ==> c in optional
    ensures EveryPrefixSafe(eligible, ks, ids, order) && GivesTheWorst(eligible, ks, ids, optional, given)
    ensures forall c :: c in optional ==> c.id in order || IsProtected(eligible, ks, Remaining(ids, order), c)
  {
    order := [];
    var sorted, counts := Sort(EvictAtMost, optional), selected;
    SortPermutes(EvictAtMost, optional);
    RearrangedDistinct(optional, sorted);
    assert Remaining(ids, order) == ids - Given(order, 0) == ids;
    for i := 0 to |sorted|
      invariant Progress(eligible, ks, ids, sorted, i, order) && CountsLeft(eligible, ks, counts, Remaining(ids, order))
    {
      var c := sorted[i];
      assert c in sorted;
      DecidesOne(eligible, ks, ids, sorted, i, order, counts);
      var k := Governing(ks, c.category);
      if !Spares(counts, k) { continue; }
      counts := Spare(counts, k);
      order := order + [c.id];
    }
    assert sorted[..|sorted|] == sorted;
    given := EvictedFrom(eligible, ks, ids, optional);
    EvictedInOrder(eligible, ks, ids, optional);
    EvictedAreWorst(eligible, ks, ids, optional);
  }
}

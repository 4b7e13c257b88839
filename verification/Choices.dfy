/** Selections as sets of block identifiers: what they hold, what they cost, and what the policy asks of
them, however their blocks are arranged. */
module Choices {
  import opened Options
  import opened Utf16
  import opened Sorting
  import opened Selections

  // ---------- totals ----------

  function Total(cs: seq<Candidate>, w: Candidate -> nat): nat {
    if cs == [] then 0 else Total(cs[..|cs| - 1], w) + w(cs[|cs| - 1])
  }

  lemma {:induction false} TotalConcat(a: seq<Candidate>, b: seq<Candidate>, w: Candidate -> nat)
    ensures Total(a + b, w) == Total(a, w) + Total(b, w)
  {
    if b == [] {
      assert a + b == a;
    } else {
      var n := |b| - 1;
      TotalConcat(a, b[..n], w);
      assert (a + b)[..|a + b| - 1] == a + b[..n] && (a + b)[|a + b| - 1] == b[n];
    }
  }

  lemma TotalWithout(cs: seq<Candidate>, k: nat, w: Candidate -> nat)
    requires k < |cs|
    ensures Total(cs, w) == Total(cs[..k] + cs[k + 1..], w) + w(cs[k])
  {
    var upTo := cs[..k + 1];
    assert cs == upTo + cs[k + 1..];
    TotalConcat(upTo, cs[k + 1..], w);
    TotalConcat(cs[..k], cs[k + 1..], w);
    assert upTo[..k] == cs[..k];
  }

  lemma MultisetWithout(cs: seq<Candidate>, k: nat)
    requires k < |cs|
    ensures multiset(cs[..k] + cs[k + 1..]) == multiset(cs) - multiset{cs[k]}
  {
    assert cs == cs[..k] + ([cs[k]] + cs[k + 1..]);
  }

  /** The arrangement does not matter. */
  lemma {:induction false} TotalPermutes(a: seq<Candidate>, b: seq<Candidate>, w: Candidate -> nat)
    requires multiset(a) == multiset(b)
    ensures Total(a, w) == Total(b, w)
    decreases |a|
  {
    if a == [] {
      assert |multiset(b)| == 0;
    } else {
      var n := |a| - 1;
      assert a == a[..n] + [a[n]];
      assert a[n] in multiset(b);
      var k :| 0 <= k < |b| && b[k] == a[n];
      MultisetWithout(b, k);
      TotalPermutes(a[..n], b[..k] + b[k + 1..], w);
      TotalWithout(b, k, w);
    }
  }

  lemma {:induction false} TotalAtMost(cs: seq<Candidate>, v: Candidate -> nat, w: Candidate -> nat)
    requires forall c :: c in cs ==> v(c) <= w(c)
    ensures Total(cs, v) <= Total(cs, w)
  {
    if cs != [] { TotalAtMost(cs[..|cs| - 1], v, w); }
  }

  lemma {:induction false} TotalSame(cs: seq<Candidate>, v: Candidate -> nat, w: Candidate -> nat)
    requires forall c :: c in cs ==> v(c) == w(c)
    ensures Total(cs, v) == Total(cs, w)
  {
    if cs != [] { TotalSame(cs[..|cs| - 1], v, w); }
  }

  lemma {:induction false} TotalSplits(cs: seq<Candidate>, u: Candidate -> nat, v: Candidate -> nat, w: Candidate -> nat)
    requires forall c :: c in cs ==> w(c) == u(c) + v(c)
    ensures Total(cs, w) == Total(cs, u) + Total(cs, v)
  {
    if cs != [] { TotalSplits(cs[..|cs| - 1], u, v, w); }
  }

  // ---------- weights ----------

  function Tokens(): Candidate -> nat { (c: Candidate) => c.tokens }

  function OfCategory(category: Text): Candidate -> nat { (c: Candidate) => if c.category == Some(category) then 1 else 0 }

  /** A weight, counted only for the identifiers in a set. */
  function Among(ids: set<Text>, w: Candidate -> nat): Candidate -> nat { (c: Candidate) => if c.id in ids then w(c) else 0 }

  lemma {:induction false} CountIsTotal(cs: seq<Candidate>, category: Text)
    ensures Count(cs, category) == Total(cs, OfCategory(category))
  {
    if cs != [] { CountIsTotal(cs[..|cs| - 1], category); }
  }

  // ---------- selections ----------

  function IdOf(c: Candidate): Text { c.id }

  function Ids(cs: seq<Candidate>): set<Text> { set c | c in cs :: c.id }

  ghost predicate DistinctIds(cs: seq<Candidate>) { forall i, j :: 0 <= i < j < |cs| ==> cs[i].id != cs[j].id }

  /** The canonical content of a selection. */
  function Content(eligible: seq<Candidate>, ids: set<Text>): nat { Total(eligible, Among(ids, Tokens())) }

  /** How many of its blocks are of one category. */
  function Blocks(eligible: seq<Candidate>, ids: set<Text>, category: Text): nat {
    Total(eligible, Among(ids, OfCategory(category)))
  }

  /** A final selection the policy allows: eligible blocks, every required one, every category within its
  bounds. */
  ghost predicate MeetsPolicy(eligible: seq<Candidate>, constraints: seq<Constraint>, ids: set<Text>) {
    && ids <= Ids(eligible)
    && (forall c :: c in eligible && c.required ==> c.id in ids)
    && forall i :: 0 <= i < |constraints| ==> Meets(constraints[i], Blocks(eligible, ids, constraints[i].category))
  }

  /** Some of the eligible candidates, each at most once. */
  ghost predicate IsSelection(eligible: seq<Candidate>, cs: seq<Candidate>) {
    DistinctIds(cs) && forall c :: c in cs ==> c in eligible
  }

  lemma SameIdSame(cs: seq<Candidate>, a: Candidate, b: Candidate)
    requires DistinctIds(cs) && a in cs && b in cs && a.id == b.id
    ensures a == b
  {
    var i :| 0 <= i < |cs| && cs[i] == a;
    var j :| 0 <= j < |cs| && cs[j] == b;
  }

  lemma {:induction false} TotalOfNone(cs: seq<Candidate>, w: Candidate -> nat)
    requires forall c :: c in cs ==> w(c) == 0
    ensures Total(cs, w) == 0
  {
    if cs != [] { TotalOfNone(cs[..|cs| - 1], w); }
  }

  /** One identifier stands for one candidate. */
  lemma {:induction false} TotalOfOne(eligible: seq<Candidate>, c: Candidate, w: Candidate -> nat)
    requires DistinctIds(eligible) && c in eligible
    ensures Total(eligible, Among({c.id}, w)) == w(c)
  {
    var n := |eligible| - 1;
    if eligible[n] == c {
      forall x | x in eligible[..n] ensures Among({c.id}, w)(x) == 0 {
        var i :| 0 <= i < n && eligible[i] == x;
      }
      TotalOfNone(eligible[..n], Among({c.id}, w));
    } else {
      SameIdIfEqual(eligible, c);
      TotalOfOne(eligible[..n], c, w);
    }
  }

  lemma SameIdIfEqual(eligible: seq<Candidate>, c: Candidate)
    requires DistinctIds(eligible) && c in eligible && eligible[|eligible| - 1] != c
    ensures c in eligible[..|eligible| - 1] && eligible[|eligible| - 1].id != c.id
  {
    var i :| 0 <= i < |eligible| && eligible[i] == c;
    assert eligible[..|eligible| - 1][i] == c;
  }

  /** Summing over a list of candidates is summing over the eligible ones it names. */
  lemma {:induction false} ChosenTotal(eligible: seq<Candidate>, cs: seq<Candidate>, w: Candidate -> nat)
    requires DistinctIds(eligible) && IsSelection(eligible, cs)
    ensures Total(eligible, Among(Ids(cs), w)) == Total(cs, w)
    decreases |cs|
  {
    if cs == [] {
      TotalOfNone(eligible, Among(Ids(cs), w));
    } else {
      var n := |cs| - 1;
      var rest, last := cs[..n], cs[n];
      ChosenTotal(eligible, rest, w);
      TotalOfOne(eligible, last, w);
      assert last.id !in Ids(rest);
      assert cs == rest + [last];
      assert Ids(cs) == Ids(rest) + {last.id};
      TotalSplits(eligible, Among(Ids(rest), w), Among({last.id}, w), Among(Ids(cs), w));
    }
  }

  /** What a list of candidates costs and holds is what its set of identifiers does. */
  lemma SelectionFacts(eligible: seq<Candidate>, cs: seq<Candidate>)
    requires DistinctIds(eligible) && IsSelection(eligible, cs)
    ensures Ids(cs) <= Ids(eligible) && Content(eligible, Ids(cs)) == Total(cs, Tokens())
    ensures forall category :: Blocks(eligible, Ids(cs), category) == Total(cs, OfCategory(category)) == Count(cs, category)
  {
    ChosenTotal(eligible, cs, Tokens());
    forall category ensures Blocks(eligible, Ids(cs), category) == Total(cs, OfCategory(category)) == Count(cs, category) {
      ChosenTotal(eligible, cs, OfCategory(category));
      CountIsTotal(cs, category);
    }
  }

  /** Taking a selected block out lowers the count of its own category only, and never the others. */
  lemma WithoutOne(eligible: seq<Candidate>, ids: set<Text>, c: Candidate, w: Candidate -> nat)
    requires DistinctIds(eligible) && c in eligible && c.id in ids
    ensures Total(eligible, Among(ids, w)) == Total(eligible, Among(ids - {c.id}, w)) + w(c)
  {
    TotalOfOne(eligible, c, w);
    TotalSplits(eligible, Among(ids - {c.id}, w), Among({c.id}, w), Among(ids, w));
  }

  /** Fewer blocks cost no more. */
  lemma ContentMonotone(eligible: seq<Candidate>, ids: set<Text>, more: set<Text>, w: Candidate -> nat)
    requires ids <= more
    ensures Total(eligible, Among(ids, w)) <= Total(eligible, Among(more, w))
  {
    TotalAtMost(eligible, Among(ids, w), Among(more, w));
  }

  // ---------- filtering ----------

  function Keep(cs: seq<Candidate>, p: Candidate -> bool): (kept: seq<Candidate>)
    ensures forall c :: c in kept <==> c in cs && p(c)
    ensures |kept| <= |cs|
  {
    if cs == [] then []
    else
      var before := Keep(cs[..|cs| - 1], p);
      if p(cs[|cs| - 1]) then before + [cs[|cs| - 1]] else before
  }

  lemma {:induction false} KeepDistinct(cs: seq<Candidate>, p: Candidate -> bool)
    requires DistinctIds(cs)
    ensures DistinctIds(Keep(cs, p))
  {
    if cs != [] {
      var n := |cs| - 1;
      KeepDistinct(cs[..n], p);
      forall c | c in Keep(cs[..n], p) ensures c.id != cs[n].id {
        var i :| 0 <= i < n && cs[i] == c;
      }
    }
  }

  function Where(p: Candidate -> bool, w: Candidate -> nat): Candidate -> nat { (c: Candidate) => if p(c) then w(c) else 0 }

  lemma {:induction false} KeepTotal(cs: seq<Candidate>, p: Candidate -> bool, w: Candidate -> nat)
    ensures Total(Keep(cs, p), w) == Total(cs, Where(p, w))
  {
    if cs != [] {
      var n := |cs| - 1;
      KeepTotal(cs[..n], p, w);
      var before := Keep(cs[..n], p);
      assert (before + [cs[n]])[..|before|] == before;
    }
  }

  /** Candidates that are kept and candidates that are not make up all of them. */
  lemma {:induction false} KeepPartitions(cs: seq<Candidate>, p: Candidate -> bool, q: Candidate -> bool)
    requires forall c :: c in cs ==> p(c) == !q(c)
    ensures multiset(Keep(cs, p)) + multiset(Keep(cs, q)) == multiset(cs)
  {
    if cs != [] {
      var n := |cs| - 1;
      KeepPartitions(cs[..n], p, q);
      var kept, other := Keep(cs[..n], p), Keep(cs[..n], q);
      assert cs == cs[..n] + [cs[n]] && cs[n] in cs;
      PartitionGrows(kept, other, cs[..n], cs[n]);
      if p(cs[n]) {
        assert Keep(cs, p) == kept + [cs[n]] && Keep(cs, q) == other;
      } else {
        assert Keep(cs, p) == kept && Keep(cs, q) == other + [cs[n]];
      }
    }
  }

  lemma PartitionGrows(kept: seq<Candidate>, other: seq<Candidate>, all: seq<Candidate>, c: Candidate)
    requires multiset(kept) + multiset(other) == multiset(all)
    ensures multiset(kept + [c]) + multiset(other) == multiset(all + [c]) == multiset(kept) + multiset(other + [c])
  {
  }

  /** A rearrangement of distinct candidates is distinct. */
  lemma RearrangedDistinct(a: seq<Candidate>, b: seq<Candidate>)
    requires DistinctIds(a) && multiset(a) == multiset(b)
    ensures DistinctIds(b) && forall c :: c in a <==> c in b
  {
    assert DistinctBy(IdOf, a);
    DistinctPermutes(IdOf, a, b);
    assert forall i, j :: 0 <= i < j < |b| ==> IdOf(b[i]) != IdOf(b[j]);
    SameElements(a, b);
  }

  /** Distinct lists of the same candidates are rearrangements of each other. */
  lemma SameMembersPermute(a: seq<Candidate>, b: seq<Candidate>)
    requires DistinctIds(a) && DistinctIds(b) && forall c :: c in a <==> c in b
    ensures multiset(a) == multiset(b)
  {
    assert DistinctBy(IdOf, a) && DistinctBy(IdOf, b);
    SameElementsPermute(IdOf, a, b);
  }
}

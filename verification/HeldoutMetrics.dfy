/** Robust summaries of a benchmark: nearest-rank percentiles and leave-one-out ranges, over exact
real arithmetic. */
module HeldoutMetrics {
  import opened Options
  import opened Sorting

  // ---------- percentiles ----------

  predicate AtMost(a: real, b: real) { a <= b }

  function Ceiling(x: real): int { -((-x).Floor) }

  function Index(p: real, n: nat): int {
    var k := Ceiling(p * n as real) - 1;
    if k < 0 then 0 else k
  }

  lemma CeilingBounds(x: real)
    ensures Ceiling(x) as real - 1.0 < x <= Ceiling(x) as real
  {
  }

  lemma CeilingAtMost(x: real, n: nat)
    requires x <= n as real
    ensures Ceiling(x) <= n
  {
    CeilingBounds(x);
  }

  lemma ProductNotNegative(x: real, y: real)
    requires x >= 0.0 && y >= 0.0
    ensures x * y >= 0.0
  {
  }

  lemma ScaledIncreases(p: real, q: real, n: real)
    requires p <= q && n >= 0.0
    ensures p * n <= q * n
  {
    ProductNotNegative(q - p, n);
  }

  lemma ScaledPositive(p: real, n: real)
    requires p > 0.0 && n > 0.0
    ensures p * n > 0.0
  {
  }

  lemma IndexInRange(p: real, n: nat)
    requires 0.0 <= p <= 1.0 && n > 0
    ensures 0 <= Index(p, n) < n
    ensures p > 0.0 ==> Index(p, n) as real < p * n as real <= (Index(p, n) + 1) as real
  {
    var x := p * n as real;
    ScaledIncreases(p, 1.0, n as real);
    CeilingAtMost(x, n);
    CeilingBounds(x);
    if p > 0.0 { ScaledPositive(p, n as real); }
  }

  function Sorted(values: seq<real>): (s: seq<real>)
    ensures SortedBy(AtMost, s) && multiset(s) == multiset(values) && |s| == |values|
  {
    SortPermutes(AtMost, values);
    SortSorts(AtMost, values);
    SameElements(Sort(AtMost, values), values);
    Sort(AtMost, values)
  }

  function Percentile(values: seq<real>, p: real): real
    requires values != [] && 0.0 <= p <= 1.0
  {
    IndexInRange(p, |values|);
    Sorted(values)[Index(p, |values|)]
  }

  function Sum(values: seq<real>): real {
    if values == [] then 0.0 else values[0] + Sum(values[1..])
  }

  datatype Summary = Summary(
    count: nat, mean: real, median: real, p10: real, p90: real, minimum: real, maximum: real)

  function Distribution(values: seq<real>): Option<Summary> {
    if values == [] then None
    else
      var s := Sorted(values);
      Some(Summary(|values|, Sum(s) / |s| as real, Percentile(values, 0.5), Percentile(values, 0.1),
                   Percentile(values, 0.9), s[0], s[|s| - 1]))
  }

  /** How many values do not exceed `v`, or lie below it. */
  function CountAtMost(values: seq<real>, v: real): nat {
    if values == [] then 0 else (if values[0] <= v then 1 else 0) + CountAtMost(values[1..], v)
  }

  function CountBelow(values: seq<real>, v: real): nat {
    if values == [] then 0 else (if values[0] < v then 1 else 0) + CountBelow(values[1..], v)
  }

  lemma {:induction false} CountsOfInsert(x: real, s: seq<real>, v: real)
    ensures CountAtMost(Insert(AtMost, x, s), v) == CountAtMost([x] + s, v)
    ensures CountBelow(Insert(AtMost, x, s), v) == CountBelow([x] + s, v)
  {
    if s != [] && !AtMost(x, s[0]) {
      CountsOfInsert(x, s[1..], v);
      assert ([x] + s)[1..] == s && ([x] + s[1..])[1..] == s[1..];
    }
  }

  lemma {:induction false} CountsOfSort(s: seq<real>, v: real)
    ensures CountAtMost(Sort(AtMost, s), v) == CountAtMost(s, v)
    ensures CountBelow(Sort(AtMost, s), v) == CountBelow(s, v)
  {
    if s != [] {
      CountsOfSort(s[1..], v);
      var rest := Sort(AtMost, s[1..]);
      CountsOfInsert(s[0], rest, v);
      assert ([s[0]] + rest)[1..] == rest;
    }
  }

  lemma {:induction false} CountsOfSorted(s: seq<real>, k: nat)
    requires SortedBy(AtMost, s) && k < |s|
    ensures CountAtMost(s, s[k]) >= k + 1 && CountBelow(s, s[k]) <= k
  {
    if k > 0 {
      CountsOfSorted(s[1..], k - 1);
      assert AtMost(s[0], s[k]);
    } else {
      NoneBelow(s, s[0]);
    }
  }

  lemma {:induction false} NoneBelow(s: seq<real>, v: real)
    requires forall i :: 0 <= i < |s| ==> v <= s[i]
    ensures CountBelow(s, v) == 0
  {
    if s != [] { NoneBelow(s[1..], v); }
  }

  lemma Rank(values: seq<real>, k: nat)
    requires k < |values|
    ensures var v := Sorted(values)[k];
      v in values && CountBelow(values, v) <= k < CountAtMost(values, v)
  {
    var s := Sorted(values);
    SameElements(s, values);
    CountsOfSorted(s, k);
    CountsOfSort(values, s[k]);
    assert s[k] in s;
  }

  /** The nearest-rank percentile is a value of the sample with at least the share `p` of the sample at
  or below it, and less than that share below it. */
  lemma NearestRank(values: seq<real>, p: real)
    requires values != [] && 0.0 < p <= 1.0
    ensures var v := Percentile(values, p); var share := p * |values| as real;
      v in values && CountBelow(values, v) as real < share <= CountAtMost(values, v) as real
  {
    IndexInRange(p, |values|);
    RankedShare(values, Index(p, |values|), p * |values| as real);
  }

  lemma RankedShare(values: seq<real>, k: nat, share: real)
    requires k < |values| && k as real < share <= (k + 1) as real
    ensures var v := Sorted(values)[k]; v in values && CountBelow(values, v) as real < share <= CountAtMost(values, v) as real
  {
    Rank(values, k);
  }

  // ---------- what is counted ----------

  ghost function NotAbove(values: seq<real>, v: real): set<nat> { set i: nat | i < |values| && values[i] <= v }

  ghost function Below(values: seq<real>, v: real): set<nat> { set i: nat | i < |values| && values[i] < v }

  lemma {:induction false} CountsSnoc(values: seq<real>, last: real, v: real)
    ensures CountAtMost(values + [last], v) == CountAtMost(values, v) + if last <= v then 1 else 0
    ensures CountBelow(values + [last], v) == CountBelow(values, v) + if last < v then 1 else 0
  {
    if values == [] {
      assert values + [last] == [last] && [last][1..] == [];
    } else {
      CountsSnoc(values[1..], last, v);
      assert (values + [last])[1..] == values[1..] + [last] && (values + [last])[0] == values[0];
    }
  }

  lemma NotAboveSnoc(values: seq<real>, last: real, v: real)
    ensures |NotAbove(values + [last], v)| == |NotAbove(values, v)| + if last <= v then 1 else 0
  {
    var more, n := values + [last], |values|;
    forall i: nat ensures i in NotAbove(more, v) <==> i in NotAbove(values, v) || (i == n && last <= v) {
      if i < n { assert more[i] == values[i]; }
    }
    assert n !in NotAbove(values, v);
    if last <= v { assert NotAbove(more, v) == NotAbove(values, v) + {n}; } else { assert NotAbove(more, v) == NotAbove(values, v); }
  }

  lemma BelowSnoc(values: seq<real>, last: real, v: real)
    ensures |Below(values + [last], v)| == |Below(values, v)| + if last < v then 1 else 0
  {
    var more, n := values + [last], |values|;
    forall i: nat ensures i in Below(more, v) <==> i in Below(values, v) || (i == n && last < v) {
      if i < n { assert more[i] == values[i]; }
    }
    assert n !in Below(values, v);
    if last < v { assert Below(more, v) == Below(values, v) + {n}; } else { assert Below(more, v) == Below(values, v); }
  }

  /** The counts are the numbers of positions with such values. */
  lemma {:induction false} CountsAreCards(values: seq<real>, v: real)
    ensures CountAtMost(values, v) == |NotAbove(values, v)| && CountBelow(values, v) == |Below(values, v)|
  {
    if values != [] {
      var n := |values| - 1;
      CountsAreCards(values[..n], v);
      CountsSnoc(values[..n], values[n], v);
      NotAboveSnoc(values[..n], values[n], v);
      BelowSnoc(values[..n], values[n], v);
      assert values == values[..n] + [values[n]];
    } else {
      assert NotAbove(values, v) == {} && Below(values, v) == {};
    }
  }

  /** A value with the share `p` of the sample at or below it and less than that below. */
  ghost predicate HasShare(values: seq<real>, p: real, v: real) {
    v in values && |Below(values, v)| as real < p * |values| as real <= |NotAbove(values, v)| as real
  }

  lemma {:induction false} SumOfInsert(x: real, s: seq<real>)
    ensures Sum(Insert(AtMost, x, s)) == x + Sum(s)
  {
    if s == [] || AtMost(x, s[0]) {
      assert ([x] + s)[1..] == s;
    } else {
      SumOfInsert(x, s[1..]);
      assert ([s[0]] + Insert(AtMost, x, s[1..]))[1..] == Insert(AtMost, x, s[1..]);
    }
  }

  lemma {:induction false} SumOfSort(s: seq<real>)
    ensures Sum(Sort(AtMost, s)) == Sum(s)
  {
    if s != [] {
      SumOfSort(s[1..]);
      SumOfInsert(s[0], Sort(AtMost, s[1..]));
    }
  }

  lemma DistributionParts(values: seq<real>)
    requires values != []
    ensures var d := Distribution(values).value;
      && d.count == |values| && d.mean == Sum(Sorted(values)) / |values| as real
      && d.median == Percentile(values, 0.5) && d.p10 == Percentile(values, 0.1) && d.p90 == Percentile(values, 0.9)
  {
  }

  /** The fields of a distribution: the size of the sample, its mean, and the nearest ranks of the half, the tenth and
  the nine tenths. */
  lemma DistributionIs(values: seq<real>)
    requires values != []
    ensures Distribution(values).Some?
    ensures var d := Distribution(values).value;
      && d.count == |values| && d.mean == Sum(values) / |values| as real
      && HasShare(values, 0.5, d.median) && HasShare(values, 0.1, d.p10) && HasShare(values, 0.9, d.p90)
  {
    DistributionParts(values);
    SumOfSort(values);
    PercentileHasShare(values, 0.5);
    PercentileHasShare(values, 0.1);
    PercentileHasShare(values, 0.9);
  }

  lemma PercentileHasShare(values: seq<real>, p: real)
    requires values != [] && 0.0 < p <= 1.0
    ensures HasShare(values, p, Percentile(values, p))
  {
    NearestRank(values, p);
    CountsAreCards(values, Percentile(values, p));
  }

  /** A distribution does not depend on the order of its sample. */
  lemma DistributionOrderIndependent(a: seq<real>, b: seq<real>)
    requires multiset(a) == multiset(b)
    ensures Distribution(a) == Distribution(b)
  {
    SameElements(a, b);
    SortedUnique(AtMost, Sorted(a), Sorted(b));
  }

  lemma CeilingIncreases(x: real, y: real)
    requires x <= y
    ensures Ceiling(x) <= Ceiling(y)
  {
  }

  lemma SortedIncreases(values: seq<real>, i: nat, j: nat)
    requires i <= j < |values|
    ensures Sorted(values)[i] <= Sorted(values)[j]
  {
    var s := Sorted(values);
    if i < j { assert AtMost(s[i], s[j]); }
  }

  lemma IndexIncreases(p: real, q: real, n: nat)
    requires p <= q
    ensures Index(p, n) <= Index(q, n)
  {
    ScaledIncreases(p, q, n as real);
    CeilingIncreases(p * n as real, q * n as real);
  }

  lemma PercentilesIncrease(values: seq<real>, p: real, q: real)
    requires values != [] && 0.0 <= p <= q <= 1.0
    ensures Percentile(values, p) <= Percentile(values, q)
  {
    IndexInRange(p, |values|);
    IndexInRange(q, |values|);
    IndexIncreases(p, q, |values|);
    SortedIncreases(values, Index(p, |values|), Index(q, |values|));
  }

  lemma {:induction false} SumBetween(s: seq<real>, lo: real, hi: real)
    requires forall i :: 0 <= i < |s| ==> lo <= s[i] <= hi
    ensures |s| as real * lo <= Sum(s) <= |s| as real * hi
  {
    if s != [] {
      SumBetween(s[1..], lo, hi);
      var n := |s[1..]| as real;
      assert |s| as real == n + 1.0;
      assert (n + 1.0) * lo == n * lo + lo && (n + 1.0) * hi == n * hi + hi;
    }
  }

  /** The values of a distribution in their order, all within the sample's own bounds. */
  lemma DistributionIsOrdered(values: seq<real>)
    requires values != []
    ensures var d := Distribution(values).value;
      && d.minimum in values && d.maximum in values && (forall v :: v in values ==> d.minimum <= v <= d.maximum)
      && d.minimum <= d.p10 <= d.median <= d.p90 <= d.maximum && d.minimum <= d.mean <= d.maximum
  {
    var s := Sorted(values);
    SameElements(s, values);
    assert s[0] in s && s[|s| - 1] in s;
    forall i | 0 <= i < |s| ensures s[0] <= s[i] <= s[|s| - 1] {
      if i > 0 { assert AtMost(s[0], s[i]); }
      if i < |s| - 1 { assert AtMost(s[i], s[|s| - 1]); }
    }
    IndexInRange(0.1, |s|);
    IndexInRange(0.9, |s|);
    PercentilesIncrease(values, 0.1, 0.5);
    PercentilesIncrease(values, 0.5, 0.9);
    MeanBetween(s, s[0], s[|s| - 1]);
  }

  lemma MeanBetween(s: seq<real>, lo: real, hi: real)
    requires s != [] && forall i :: 0 <= i < |s| ==> lo <= s[i] <= hi
    ensures lo <= Sum(s) / |s| as real <= hi
  {
    SumBetween(s, lo, hi);
    var n, m := |s| as real, Sum(s) / |s| as real;
    assert m * n == Sum(s);
    assert (m - lo) * n == Sum(s) - n * lo && (hi - m) * n == n * hi - Sum(s);
    SignOfProduct(m - lo, n);
    SignOfProduct(hi - m, n);
  }

  // ---------- leave one out: the median ----------

  function Omit<T>(s: seq<T>, i: nat): seq<T>
    requires i < |s|
  {
    s[..i] + s[i + 1..]
  }

  function Median(values: seq<real>): real
    requires values != []
  {
    Percentile(values, 0.5)
  }

  /** The medians of the samples with one value left out, in order. */
  function OmittedMedians(values: seq<real>): (r: seq<real>)
    ensures |r| == if |values| < 2 then 0 else |values|
  {
    if |values| < 2 then []
    else seq(|values|, i requires 0 <= i < |values| => Median(Omit(values, i)))
  }

  lemma OmitOnce<T>(s: seq<T>, p: nat)
    requires p < |s|
    ensures multiset(Omit(s, p)) == multiset(s) - multiset{s[p]}
  {
    assert s == s[..p] + ([s[p]] + s[p + 1..]);
  }

  lemma SortedOmit(s: seq<real>, p: nat)
    requires SortedBy(AtMost, s) && p < |s|
    ensures SortedBy(AtMost, Omit(s, p))
  {
  }

  /** Leaving a value out of the sample takes one occurrence of it out of the sorted sample. */
  lemma OmitThenSort(values: seq<real>, i: nat, p: nat)
    requires i < |values| && p < |values| && values[i] == Sorted(values)[p]
    ensures Sorted(Omit(values, i)) == Omit(Sorted(values), p)
  {
    OmitOnce(values, i);
    OmitOnce(Sorted(values), p);
    SortedOmit(Sorted(values), p);
    SortedUnique(AtMost, Omit(Sorted(values), p), Sorted(Omit(values, i)));
  }

  lemma MedianIndex(n: nat)
    requires n > 0
    ensures Index(0.5, n) == (n - 1) / 2
  {
    var x := 0.5 * n as real;
    if n % 2 == 0 {
      assert x == (n / 2) as real;
    } else {
      assert x == (n / 2) as real + 0.5;
    }
  }

  lemma MedianIsMiddle(values: seq<real>)
    requires values != []
    ensures Median(values) == Sorted(values)[(|values| - 1) / 2]
  {
    MedianIndex(|values|);
  }

  /** A position whose removal keeps the middle of a sorted sample. */
  function Spare(n: nat): (p: nat)
    requires n >= 2
    ensures p < n
  {
    if n % 2 == 0 then n - 1 else 0
  }

  lemma MiddleSurvives(s: seq<real>)
    requires |s| >= 2
    ensures Omit(s, Spare(|s|))[(|s| - 2) / 2] == s[(|s| - 1) / 2]
  {
    assert |s| % 2 == 0 ==> (|s| - 2) / 2 == (|s| - 1) / 2;
    assert |s| % 2 == 1 ==> (|s| - 2) / 2 + 1 == (|s| - 1) / 2;
  }

  lemma OmittedMedian(values: seq<real>, i: nat)
    requires i < |values| && |values| >= 2 && values[i] == Sorted(values)[Spare(|values|)]
    ensures Median(Omit(values, i)) == Median(values)
  {
    var s, rest := Sorted(values), Omit(values, i);
    assert |rest| == |s| - 1;
    MedianIsMiddle(rest);
    MedianIsMiddle(values);
    OmitThenSort(values, i, Spare(|values|));
    MiddleSurvives(s);
  }

  /** The median of the whole sample is the median of some sample with one value left out: without the
  greatest value when the size is even, without the least when it is odd. */
  lemma MedianSurvives(values: seq<real>) returns (i: nat)
    requires |values| >= 2
    ensures i < |values| && Median(Omit(values, i)) == Median(values)
  {
    i := IndexOf(values, Sorted(values), Spare(|values|));
    OmittedMedian(values, i);
  }

  lemma IndexOf(values: seq<real>, s: seq<real>, p: nat) returns (i: nat)
    requires multiset(values) == multiset(s) && p < |s|
    ensures i < |values| && values[i] == s[p]
  {
    SameElements(values, s);
    assert s[p] in s;
    i :| 0 <= i < |values| && values[i] == s[p];
  }

  function Least(values: seq<real>): (m: real)
    requires values != []
    ensures m in values && forall v :: v in values ==> m <= v
  {
    if |values| == 1 then values[0]
    else
      assert values == [values[0]] + values[1..];
      var rest := Least(values[1..]);
      if values[0] <= rest then values[0] else rest
  }

  function Greatest(values: seq<real>): (m: real)
    requires values != []
    ensures m in values && forall v :: v in values ==> v <= m
  {
    if |values| == 1 then values[0]
    else
      assert values == [values[0]] + values[1..];
      var rest := Greatest(values[1..]);
      if values[0] >= rest then values[0] else rest
  }

  /** The leave-one-out range of the median contains the median. */
  lemma MedianInRange(values: seq<real>)
    requires |values| >= 2
    ensures var omitted := OmittedMedians(values);
      omitted != [] && Median(values) in omitted && Least(omitted) <= Median(values) <= Greatest(omitted)
  {
    var i := MedianSurvives(values);
    var omitted := OmittedMedians(values);
    assert omitted[i] == Median(values);
    assert omitted[i] in omitted;
  }

  // ---------- leave one out: the pooled ratio ----------

  datatype Ratio = Ratio(numerator: real, denominator: real)

  function Numerators(ratios: seq<Ratio>): real {
    if ratios == [] then 0.0 else ratios[0].numerator + Numerators(ratios[1..])
  }

  function Denominators(ratios: seq<Ratio>): real {
    if ratios == [] then 0.0 else ratios[0].denominator + Denominators(ratios[1..])
  }

  function RatioValue(r: Ratio): Option<real> {
    if r.denominator == 0.0 then None else Some(r.numerator / r.denominator)
  }

  function Micro(ratios: seq<Ratio>): Option<real> {
    RatioValue(Ratio(Numerators(ratios), Denominators(ratios)))
  }

  function PooledWithout(all: Ratio, r: Ratio): Option<real> {
    RatioValue(Ratio(all.numerator - r.numerator, all.denominator - r.denominator))
  }

  /** The pooled ratios with one request left out, skipping those without a denominator. */
  function Omitted(all: Ratio, ratios: seq<Ratio>): seq<real> {
    if ratios == [] then []
    else
      var v := PooledWithout(all, ratios[0]);
      (if v.None? then [] else [v.value]) + Omitted(all, ratios[1..])
  }

  function OmittedMicros(ratios: seq<Ratio>): seq<real> {
    if |ratios| < 2 then [] else Omitted(Ratio(Numerators(ratios), Denominators(ratios)), ratios)
  }

  datatype Range = Range(minimum: real, maximum: real)

  function OmittedMicroRange(ratios: seq<Ratio>): Option<Range> {
    var omitted := OmittedMicros(ratios);
    if omitted == [] then None else Some(Range(Least(omitted), Greatest(omitted)))
  }

  /** A share: part of a whole. */
  predicate IsShare(r: Ratio) { 0.0 <= r.numerator <= r.denominator }

  ghost predicate AllShares(ratios: seq<Ratio>) { forall i :: 0 <= i < |ratios| ==> IsShare(ratios[i]) }

  lemma {:induction false} PartOfTotal(ratios: seq<Ratio>, i: nat)
    requires AllShares(ratios) && i < |ratios|
    ensures ratios[i].denominator <= Denominators(ratios)
    ensures 0.0 <= Numerators(ratios) - ratios[i].numerator <= Denominators(ratios) - ratios[i].denominator
  {
    var tail := ratios[1..];
    SharesAdd(tail);
    if i > 0 { PartOfTotal(tail, i - 1); }
  }

  lemma {:induction false} SharesAdd(ratios: seq<Ratio>)
    requires AllShares(ratios)
    ensures 0.0 <= Numerators(ratios) <= Denominators(ratios)
  {
    if ratios != [] { SharesAdd(ratios[1..]); }
  }

  ghost predicate HasBelow(vs: seq<real>, m: real) { exists i :: 0 <= i < |vs| && vs[i] < m }

  ghost predicate HasAbove(vs: seq<real>, m: real) { exists i :: 0 <= i < |vs| && vs[i] > m }

  ghost predicate Has(vs: seq<real>, m: real) { exists i :: 0 <= i < |vs| && vs[i] == m }

  lemma HasCons(v: real, rest: seq<real>, m: real)
    ensures HasBelow([v] + rest, m) <==> v < m || HasBelow(rest, m)
    ensures HasAbove([v] + rest, m) <==> v > m || HasAbove(rest, m)
    ensures Has([v] + rest, m) <==> v == m || Has(rest, m)
  {
    var vs := [v] + rest;
    assert vs[0] == v && forall i :: 0 <= i < |rest| ==> vs[i + 1] == rest[i];
    if HasBelow(vs, m) && v >= m { var i :| 0 <= i < |vs| && vs[i] < m; assert rest[i - 1] < m; }
    if HasAbove(vs, m) && v <= m { var i :| 0 <= i < |vs| && vs[i] > m; assert rest[i - 1] > m; }
    if Has(vs, m) && v != m { var i :| 0 <= i < |vs| && vs[i] == m; assert rest[i - 1] == m; }
  }

  /** What a shortfall says about values: some lie on its side of `m`, and if there is neither a
  shortfall nor an excess they cannot all lie on one side. */
  ghost predicate Balanced(shortfall: real, m: real, vs: seq<real>) {
    && (shortfall < 0.0 ==> HasBelow(vs, m))
    && (shortfall > 0.0 ==> HasAbove(vs, m))
    && (shortfall == 0.0 && vs != [] ==> (HasBelow(vs, m) && HasAbove(vs, m)) || Has(vs, m))
  }

  lemma BalancedCons(own: real, v: real, shortfall: real, m: real, rest: seq<real>)
    requires Balanced(shortfall, m, rest)
    requires (v < m <==> own < 0.0) && (v == m <==> own == 0.0)
    ensures Balanced(own + shortfall, m, [v] + rest)
  {
    HasCons(v, rest, m);
  }

  /** How far one request falls short of the share `m`. */
  function Shortfall(m: real, r: Ratio): real { m * r.denominator - r.numerator }

  function Total(f: Ratio -> real, ratios: seq<Ratio>): real {
    if ratios == [] then 0.0 else f(ratios[0]) + Total(f, ratios[1..])
  }

  lemma {:induction false} TotalShortfall(m: real, f: Ratio -> real, ratios: seq<Ratio>)
    requires forall r :: f(r) == Shortfall(m, r)
    ensures Total(f, ratios) == m * Denominators(ratios) - Numerators(ratios)
  {
    if ratios != [] {
      var d, rest := ratios[0].denominator, Denominators(ratios[1..]);
      TotalShortfall(m, f, ratios[1..]);
      assert f(ratios[0]) == Shortfall(m, ratios[0]);
      assert m * (d + rest) == m * d + m * rest;
    }
  }

  /** The sign of `f` tells on which side of `m` the ratio without the request lies; a request that can
  not be left out has none. */
  ghost predicate Signed(all: Ratio, m: real, f: Ratio -> real, r: Ratio) {
    var v := PooledWithout(all, r);
    if v.None? then f(r) == 0.0 else (v.value < m <==> f(r) < 0.0) && (v.value == m <==> f(r) == 0.0)
  }

  lemma SignOfProduct(x: real, d: real)
    requires d > 0.0
    ensures (x < 0.0 <==> x * d < 0.0) && (x == 0.0 <==> x * d == 0.0)
  {
  }

  /** Leaving out a request lowers the pooled ratio exactly when its own share is above it. */
  lemma ShortfallIsSigned(all: Ratio, m: real, f: Ratio -> real, r: Ratio)
    requires m * all.denominator == all.numerator && r.denominator <= all.denominator
    requires r.denominator == all.denominator ==> r.numerator == all.numerator
    requires f(r) == Shortfall(m, r)
    ensures Signed(all, m, f, r)
  {
    if r.denominator < all.denominator {
      var d := all.denominator - r.denominator;
      var v := (all.numerator - r.numerator) / d;
      assert v * d == all.numerator - r.numerator;
      assert (v - m) * d == m * r.denominator - r.numerator;
      SignOfProduct(v - m, d);
    }
  }

  lemma {:induction false} PartsBalance(all: Ratio, m: real, f: Ratio -> real, ratios: seq<Ratio>)
    requires forall i :: 0 <= i < |ratios| ==> Signed(all, m, f, ratios[i])
    ensures Balanced(Total(f, ratios), m, Omitted(all, ratios))
  {
    if ratios != [] {
      var tail, v := ratios[1..], PooledWithout(all, ratios[0]);
      PartsBalance(all, m, f, tail);
      assert Signed(all, m, f, ratios[0]);
      if v.Some? {
        BalancedCons(f(ratios[0]), v.value, Total(f, tail), m, Omitted(all, tail));
      } else {
        assert Omitted(all, ratios) == Omitted(all, tail);
      }
    }
  }

  lemma {:induction false} SomeOmitted(all: Ratio, ratios: seq<Ratio>)
    ensures Omitted(all, ratios) != [] <==> exists i :: 0 <= i < |ratios| && ratios[i].denominator != all.denominator
  {
    if ratios != [] {
      SomeOmitted(all, ratios[1..]);
      assert forall i :: 1 <= i < |ratios| ==> ratios[i] == ratios[1..][i - 1];
    }
  }

  lemma RangeExists(ratios: seq<Ratio>)
    requires AllShares(ratios)
    ensures OmittedMicros(ratios) != [] <==> |ratios| >= 2 && Denominators(ratios) > 0.0
  {
    var all := Ratio(Numerators(ratios), Denominators(ratios));
    SharesAdd(ratios);
    SomeOmitted(all, ratios);
    if |ratios| >= 2 && all.denominator > 0.0 {
      NotAllWhole(ratios);
    } else if |ratios| >= 2 {
      forall i | 0 <= i < |ratios| ensures ratios[i].denominator == all.denominator { PartOfTotal(ratios, i); }
    }
  }

  lemma BalancedRange(m: real, vs: seq<real>)
    requires vs != [] && Balanced(0.0, m, vs)
    ensures Least(vs) <= m <= Greatest(vs)
  {
    if HasBelow(vs, m) { var i :| 0 <= i < |vs| && vs[i] < m; assert vs[i] in vs; }
    if HasAbove(vs, m) { var i :| 0 <= i < |vs| && vs[i] > m; assert vs[i] in vs; }
    if Has(vs, m) { var i :| 0 <= i < |vs| && vs[i] == m; assert vs[i] in vs; }
  }

  lemma AllSigned(ratios: seq<Ratio>, all: Ratio, m: real, f: Ratio -> real)
    requires AllShares(ratios) && all == Ratio(Numerators(ratios), Denominators(ratios))
    requires m * all.denominator == all.numerator && forall r :: f(r) == Shortfall(m, r)
    ensures forall i :: 0 <= i < |ratios| ==> Signed(all, m, f, ratios[i])
  {
    forall i | 0 <= i < |ratios| ensures Signed(all, m, f, ratios[i]) {
      PartOfTotal(ratios, i);
      ShortfallIsSigned(all, m, f, ratios[i]);
    }
  }

  /** Against the pooled ratio itself there is neither a shortfall nor an excess. */
  lemma NoTotalShortfall(ratios: seq<Ratio>, m: real, f: Ratio -> real)
    requires m * Denominators(ratios) == Numerators(ratios) && forall r :: f(r) == Shortfall(m, r)
    ensures Total(f, ratios) == 0.0
  {
    TotalShortfall(m, f, ratios);
  }

  /** A reason why the values without one request balance around `m`. */
  ghost predicate Weighs(f: Ratio -> real, ratios: seq<Ratio>, all: Ratio, m: real) {
    Total(f, ratios) == 0.0 && forall i :: 0 <= i < |ratios| ==> Signed(all, m, f, ratios[i])
  }

  function ShortfallOf(m: real): Ratio -> real { (r: Ratio) => Shortfall(m, r) }

  lemma ShortfallWeighs(ratios: seq<Ratio>, all: Ratio, m: real)
    requires AllShares(ratios) && all == Ratio(Numerators(ratios), Denominators(ratios))
    requires m * all.denominator == all.numerator && Total(ShortfallOf(m), ratios) == 0.0
    ensures Weighs(ShortfallOf(m), ratios, all, m)
  {
    AllSigned(ratios, all, m, ShortfallOf(m));
  }

  lemma MicroBalances(ratios: seq<Ratio>, m: real)
    requires AllShares(ratios) && m * Denominators(ratios) == Numerators(ratios)
    ensures Balanced(0.0, m, Omitted(Ratio(Numerators(ratios), Denominators(ratios)), ratios))
  {
    NoTotalShortfall(ratios, m, ShortfallOf(m));
    var all := Ratio(Numerators(ratios), Denominators(ratios));
    ShortfallWeighs(ratios, all, m);
    PartsBalance(all, m, ShortfallOf(m), ratios);
  }

  lemma MicroTimesDenominator(ratios: seq<Ratio>)
    requires Denominators(ratios) != 0.0
    ensures Micro(ratios).Some? && Micro(ratios).value * Denominators(ratios) == Numerators(ratios)
  {
  }

  lemma ShareInRange(ratios: seq<Ratio>, m: real)
    requires AllShares(ratios) && OmittedMicros(ratios) != []
    requires m * Denominators(ratios) == Numerators(ratios)
    ensures Least(OmittedMicros(ratios)) <= m <= Greatest(OmittedMicros(ratios))
  {
    OmittedBalance(ratios, m);
    BalancedRange(m, OmittedMicros(ratios));
  }

  lemma OmittedBalance(ratios: seq<Ratio>, m: real)
    requires AllShares(ratios) && m * Denominators(ratios) == Numerators(ratios)
    ensures Balanced(0.0, m, OmittedMicros(ratios))
  {
    MicroBalances(ratios, m);
  }

  /** There is a leave-one-out range exactly for two or more requests with some denominator at all, and
  then it contains the pooled ratio. */
  lemma MicroInRange(ratios: seq<Ratio>)
    requires forall i :: 0 <= i < |ratios| ==> 0.0 <= ratios[i].numerator <= ratios[i].denominator
    ensures OmittedMicroRange(ratios).Some? <==> |ratios| >= 2 && Denominators(ratios) > 0.0
    ensures OmittedMicroRange(ratios).Some? ==>
      && Micro(ratios).Some?
      && OmittedMicroRange(ratios).value.minimum <= Micro(ratios).value <= OmittedMicroRange(ratios).value.maximum
  {
    RangeExists(ratios);
    if OmittedMicros(ratios) != [] {
      MicroTimesDenominator(ratios);
      ShareInRange(ratios, Micro(ratios).value);
    }
  }

  /** Two requests cannot both hold a whole positive denominator. */
  lemma NotAllWhole(ratios: seq<Ratio>)
    requires AllShares(ratios) && |ratios| >= 2 && Denominators(ratios) > 0.0
    ensures ratios[0].denominator != Denominators(ratios) || ratios[1].denominator != Denominators(ratios)
  {
    SharesAdd(ratios[1..]);
    SharesAdd(ratios[2..]);
    assert Denominators(ratios[1..]) == ratios[1].denominator + Denominators(ratios[1..][1..]);
    assert ratios[1..][1..] == ratios[2..];
  }
}

/** All combinations of one size, by stepping a row of indices like an odometer. */
module Combinations {
  import opened Subsets

  /** A combination: `size` increasing positions below `n`. */
  ghost predicate IsCombination(n: nat, size: nat, t: seq<nat>) { IsSubset(n, t) && |t| == size }

  function Anything(): seq<nat> -> bool { t => true }

  /** Every combination, in lexicographic order. */
  function All(n: nat, size: nat): seq<seq<nat>> { Filtered(n, Anything(), [], 0, size) }

  lemma AllFacts(n: nat, size: nat)
    ensures Ordered(All(n, size))
    ensures forall t :: t in All(n, size) <==> IsCombination(n, size, t)
  {
    OfOneSize(n, Anything(), size);
  }

  // ---------- the order of combinations ----------

  lemma SamePrefix(a: seq<nat>, b: seq<nat>, m: nat, k: nat)
    requires k < m <= |a| && m <= |b| && a[..m] == b[..m]
    ensures a[k] == b[k]
  {
    assert a[..m][k] == b[..m][k];
  }

  lemma LexAsymmetric(a: seq<nat>, b: seq<nat>)
    requires LexLess(a, b)
    ensures !LexLess(b, a) && a != b
  {
    var k :| 0 <= k < |a| && k < |b| && a[..k] == b[..k] && a[k] < b[k];
    forall m | 0 <= m < |a| && m < |b| && a[..m] == b[..m] ensures a[m] <= b[m] {
      if m > k { SamePrefix(a, b, m, k); }
      if m < k { SamePrefix(a, b, k, m); }
    }
  }

  /** In an ordered list the earlier comes first. */
  lemma OrderFollows(all: seq<seq<nat>>, i: nat, j: nat)
    requires Ordered(all) && i < |all| && j < |all| && |all[i]| == |all[j]| && LexLess(all[i], all[j])
    ensures i < j
  {
    LexAsymmetric(all[i], all[j]);
  }

  /** Every index is as far right as it can stand. */
  predicate IsLast(n: nat, size: nat, t: seq<nat>)
    requires |t| == size
  {
    forall j :: 0 <= j < size ==> t[j] == n - size + j
  }

  /** No index stands farther right than the last combination has it. */
  lemma {:induction false} IndexBound(n: nat, size: nat, t: seq<nat>, j: nat)
    requires IsCombination(n, size, t) && j < size
    ensures j <= t[j] <= n - size + j
    decreases size - j
  {
    if j + 1 < size { IndexBound(n, size, t, j + 1); } else { assert t[j] < n; }
    LowBound(n, size, t, j);
  }

  lemma {:induction false} LowBound(n: nat, size: nat, t: seq<nat>, j: nat)
    requires IsCombination(n, size, t) && j < size
    ensures j <= t[j]
  {
    if j > 0 { LowBound(n, size, t, j - 1); }
  }

  lemma NothingAfterLast(n: nat, size: nat, t: seq<nat>, u: seq<nat>)
    requires IsCombination(n, size, t) && IsCombination(n, size, u) && IsLast(n, size, t)
    ensures !LexLess(t, u)
  {
    forall k | 0 <= k < size ensures u[k] <= t[k] { IndexBound(n, size, u, k); }
  }

  function First(size: nat): (t: seq<nat>)
    ensures |t| == size && forall j :: 0 <= j < size ==> t[j] == j
  {
    seq(size, j => j)
  }

  lemma NothingBeforeFirst(n: nat, size: nat, u: seq<nat>)
    requires IsCombination(n, size, u)
    ensures !LexLess(u, First(size))
  {
    forall k | 0 <= k < size ensures k <= u[k] { LowBound(n, size, u, k); }
  }

  /** The step of the odometer: index `c` moves on and those after it follow. */
  function Stepped(t: seq<nat>, c: nat): (u: seq<nat>)
    requires c < |t|
    ensures |u| == |t| && u[..c] == t[..c] && forall j :: c <= j < |t| ==> u[j] == t[c] + 1 + (j - c)
  {
    t[..c] + seq(|t| - c, j requires 0 <= j < |t| - c => t[c] + 1 + j)
  }

  lemma SteppedRises(t: seq<nat>, c: nat, k: nat)
    requires c < k < |t|
    ensures Stepped(t, c)[k] == Stepped(t, c)[k - 1] + 1
  {
  }

  /** `c` is the last index that can still move. */
  ghost predicate IsCursor(n: nat, size: nat, t: seq<nat>, c: int)
    requires |t| == size
  {
    0 <= c < size && t[c] != n - size + c && forall j :: c < j < size ==> t[j] == n - size + j
  }

  lemma SteppedIsNext(n: nat, size: nat, t: seq<nat>, c: nat)
    requires IsCombination(n, size, t) && IsCursor(n, size, t, c)
    ensures IsCombination(n, size, Stepped(t, c)) && LexLess(t, Stepped(t, c))
  {
    var u := Stepped(t, c);
    IndexBound(n, size, t, c);
    assert forall j :: 0 <= j < c ==> u[j] == u[..c][j] == t[..c][j] == t[j];
    assert t[..c] == u[..c] && t[c] < u[c];
  }

  /** What comes before the next combination differs from `t` downwards, at the cursor or before it, or
  agrees with `t` up to the cursor. */
  lemma BelowStepped(n: nat, size: nat, t: seq<nat>, c: nat, u: seq<nat>) returns (k: nat)
    requires IsCombination(n, size, t) && IsCursor(n, size, t, c) && IsCombination(n, size, u)
    requires LexLess(u, Stepped(t, c))
    ensures k <= c && (forall j :: 0 <= j < k ==> u[j] == t[j]) && (if k < c then u[k] < t[k] else u[c] <= t[c])
  {
    var next := Stepped(t, c);
    k :| 0 <= k < size && u[..k] == next[..k] && u[k] < next[k];
    forall j | 0 <= j < c ensures next[j] == t[j] { SamePrefix(next, t, c, j); }
    forall j | 0 <= j < k ensures u[j] == next[j] { SamePrefix(u, next, k, j); }
    if k > c { SteppedRises(t, c, k); }
  }

  /** Nothing lies strictly between a combination and the next. */
  lemma NothingBetween(n: nat, size: nat, t: seq<nat>, c: nat, u: seq<nat>)
    requires IsCombination(n, size, t) && IsCursor(n, size, t, c) && IsCombination(n, size, u)
    requires LexLess(u, Stepped(t, c))
    ensures !LexLess(t, u)
  {
    var k := BelowStepped(n, size, t, c, u);
    forall m | 0 <= m < size && t[..m] == u[..m] ensures u[m] <= t[m] {
      if m > k { SamePrefix(t, u, m, k); }
      if m > c { IndexBound(n, size, u, m); }
    }
  }

  // ---------- the generator ----------

  /** Position `i` of the list of all combinations. */
  ghost predicate IsAt(n: nat, size: nat, i: nat, t: seq<nat>) {
    i < |All(n, size)| && All(n, size)[i] == t && IsCombination(n, size, t)
  }

  lemma FirstIsAt(n: nat, size: nat)
    requires size <= n
    ensures IsAt(n, size, 0, First(size))
  {
    AllFacts(n, size);
    var all := All(n, size);
    assert First(size) in all;
    var i :| 0 <= i < |all| && all[i] == First(size);
    assert all[0] in all;
    if i > 0 { assert Before(all[0], all[i]); }
    NothingBeforeFirst(n, size, all[0]);
  }

  lemma NextIsAt(n: nat, size: nat, i: nat, t: seq<nat>, c: nat)
    requires IsAt(n, size, i, t) && IsCursor(n, size, t, c)
    ensures IsAt(n, size, i + 1, Stepped(t, c))
  {
    AllFacts(n, size);
    var all, next := All(n, size), Stepped(t, c);
    SteppedIsNext(n, size, t, c);
    assert next in all;
    var j :| 0 <= j < |all| && all[j] == next;
    OrderFollows(all, i, j);
    if j > i + 1 {
      assert all[i + 1] in all && Before(all[i + 1], all[j]) && Before(all[i], all[i + 1]);
      NothingBetween(n, size, t, c, all[i + 1]);
    }
  }

  lemma LastIsAt(n: nat, size: nat, i: nat, t: seq<nat>)
    requires IsAt(n, size, i, t) && IsLast(n, size, t)
    ensures i + 1 == |All(n, size)|
  {
    AllFacts(n, size);
    var all := All(n, size);
    if i + 1 < |all| {
      assert all[i + 1] in all && Before(all[i], all[i + 1]);
      NothingAfterLast(n, size, t, all[i + 1]);
    }
  }

  /** The last index that can still move, or a negative number. */
  method FindCursor(n: nat, size: nat, t: seq<nat>) returns (cursor: int)
    requires IsCombination(n, size, t)
    ensures -1 <= cursor < size
    ensures cursor < 0 ==> IsLast(n, size, t)
    ensures cursor >= 0 ==> IsCursor(n, size, t, cursor)
  {
    cursor := size - 1;
    while cursor >= 0 && t[cursor] == n - size + cursor
      invariant -1 <= cursor < size
      invariant forall j :: cursor < j < size ==> t[j] == n - size + j
    {
      cursor := cursor - 1;
    }
  }

  /** Every combination of exactly `size` positions, each once, in lexicographic order. */
  method AllCombinations(n: nat, size: nat) returns (yielded: seq<seq<nat>>)
    ensures yielded == All(n, size)
  {
    if size == 0 { return [[]]; }
    if size > n {
      AllFacts(n, size);
      NoneFit(n, size);
      return [];
    }
    var indices := First(size);
    FirstIsAt(n, size);
    yielded := [];
    while true
      invariant IsAt(n, size, |yielded|, indices) && yielded == All(n, size)[..|yielded|]
      decreases |All(n, size)| - |yielded|
    {
      ghost var i := |yielded|;
      yielded := yielded + [indices];
      var cursor := FindCursor(n, size, indices);
      if cursor < 0 {
        LastIsAt(n, size, i, indices);
        return;
      }
      NextIsAt(n, size, i, indices, cursor);
      indices := Stepped(indices, cursor);
    }
  }

  lemma NoneFit(n: nat, size: nat)
    requires size > n
    ensures All(n, size) == []
  {
    AllFacts(n, size);
    var all := All(n, size);
    forall t | IsCombination(n, size, t) ensures |t| <= n { SubsetIsSmall(n, t); }
    if all != [] { AllInIt(all); }
  }

  lemma AllInIt(all: seq<seq<nat>>)
    requires all != []
    ensures all[0] in all
  {
  }
}

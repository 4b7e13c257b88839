/** Subsets of a pool as increasing lists of positions, and the order they are walked in. */
module Subsets {
  ghost predicate Increasing(t: seq<nat>) { forall i, j :: 0 <= i < j < |t| ==> t[i] < t[j] }

  /** `t` is `chosen` followed by increasing positions in `[from, n)`, `size` in all. */
  ghost predicate Extends(n: nat, chosen: seq<nat>, from: nat, size: nat, t: seq<nat>) {
    && |chosen| <= |t| == size && t[..|chosen|] == chosen && Increasing(t)
    && forall i :: |chosen| <= i < |t| ==> from <= t[i] < n
  }

  /** The walk over every extension, those holding `from` first, keeping the ones that are `ok`: the
  filtered power set, size by size. */
  function Filtered(n: nat, ok: seq<nat> -> bool, chosen: seq<nat>, from: nat, size: nat): seq<seq<nat>>
    decreases if from < n then n - from else 0
  {
    if |chosen| >= size then (if |chosen| == size && ok(chosen) then [chosen] else [])
    else if from >= n then []
    else Filtered(n, ok, chosen + [from], from + 1, size) + Filtered(n, ok, chosen, from + 1, size)
  }

  /** All sizes below `upTo`, smaller first. */
  function FilteredBySize(n: nat, ok: seq<nat> -> bool, upTo: nat): seq<seq<nat>> {
    if upTo == 0 then [] else FilteredBySize(n, ok, upTo - 1) + Filtered(n, ok, [], 0, upTo - 1)
  }

  /** A list of positions below `from`, in order. */
  ghost predicate IsPrefix(chosen: seq<nat>, from: nat) {
    Increasing(chosen) && forall i :: 0 <= i < |chosen| ==> chosen[i] < from
  }

  /** What is walked is what extends and is accepted. */
  lemma {:induction false} FilteredMembers(n: nat, ok: seq<nat> -> bool, chosen: seq<nat>, from: nat, size: nat, t: seq<nat>)
    requires IsPrefix(chosen, from)
    ensures t in Filtered(n, ok, chosen, from, size) <==> Extends(n, chosen, from, size, t) && ok(t)
    decreases if from < n then n - from else 0
  {
    if |chosen| < size && from < n {
      FilteredMembers(n, ok, chosen + [from], from + 1, size, t);
      FilteredMembers(n, ok, chosen, from + 1, size, t);
      ExtendsSplits(n, chosen, from, size, t);
    } else if |chosen| < size {
      if Extends(n, chosen, from, size, t) { ExtendsHasRoom(n, chosen, from, size, t); }
    } else if |chosen| == size {
      assert t[..|t|] == t;
    }
  }

  lemma ExtendsHasRoom(n: nat, chosen: seq<nat>, from: nat, size: nat, t: seq<nat>)
    requires Extends(n, chosen, from, size, t) && |chosen| < size
    ensures from < n
  {
    assert from <= t[|chosen|] < n;
  }

  /** An extension takes the next position or leaves it out. */
  lemma ExtendsSplits(n: nat, chosen: seq<nat>, from: nat, size: nat, t: seq<nat>)
    requires IsPrefix(chosen, from) && |chosen| < size && from < n
    ensures Extends(n, chosen, from, size, t) <==>
      Extends(n, chosen + [from], from + 1, size, t) || Extends(n, chosen, from + 1, size, t)
  {
    var c := |chosen|;
    if Extends(n, chosen, from, size, t) {
      if t[c] == from {
        assert t[..c + 1] == chosen + [from];
        assert Extends(n, chosen + [from], from + 1, size, t);
      } else {
        assert forall i :: c <= i < |t| ==> t[c] <= t[i];
      }
    }
    if Extends(n, chosen + [from], from + 1, size, t) {
      assert t[..c] == t[..c + 1][..c] == chosen;
      assert t[c] == t[..c + 1][c] == from;
    }
  }

  // ---------- order ----------

  /** Lexicographic order of lists of one length. */
  ghost predicate LexLess(a: seq<nat>, b: seq<nat>) {
    exists k :: 0 <= k < |a| && k < |b| && a[..k] == b[..k] && a[k] < b[k]
  }

  /** Smaller first, then lexicographic. */
  ghost predicate Before(a: seq<nat>, b: seq<nat>) {
    |a| < |b| || (|a| == |b| && LexLess(a, b))
  }

  ghost predicate Ordered(ts: seq<seq<nat>>) { forall i, j :: 0 <= i < j < |ts| ==> Before(ts[i], ts[j]) }

  lemma BeforeIsStrict(a: seq<nat>)
    ensures !Before(a, a)
  {
  }

  lemma OrderedConcat(a: seq<seq<nat>>, b: seq<seq<nat>>)
    requires Ordered(a) && Ordered(b)
    requires forall x, y :: x in a && y in b ==> Before(x, y)
    ensures Ordered(a + b)
  {
    var ab := a + b;
    forall i, j | 0 <= i < j < |ab| ensures Before(ab[i], ab[j]) {
      if i < |a| && j >= |a| { assert a[i] in a && b[j - |a|] in b; }
    }
  }

  lemma TakenComesFirst(n: nat, chosen: seq<nat>, from: nat, size: nat, x: seq<nat>, y: seq<nat>)
    requires Extends(n, chosen + [from], from + 1, size, x) && Extends(n, chosen, from + 1, size, y) && |chosen| < size
    ensures Before(x, y)
  {
    var c := |chosen|;
    assert x[..c] == x[..c + 1][..c] == chosen && x[c] == x[..c + 1][c] == from;
    assert y[..c] == chosen && y[c] > from;
  }

  lemma WalkedExtends(n: nat, ok: seq<nat> -> bool, chosen: seq<nat>, from: nat, size: nat, t: seq<nat>)
    requires IsPrefix(chosen, from) && t in Filtered(n, ok, chosen, from, size)
    ensures Extends(n, chosen, from, size, t)
  {
    FilteredMembers(n, ok, chosen, from, size, t);
  }

  lemma TakenBeforeLeft(n: nat, ok: seq<nat> -> bool, chosen: seq<nat>, from: nat, size: nat, x: seq<nat>, y: seq<nat>)
    requires IsPrefix(chosen, from) && |chosen| < size && from < n
    requires x in Filtered(n, ok, chosen + [from], from + 1, size) && y in Filtered(n, ok, chosen, from + 1, size)
    ensures Before(x, y)
  {
    WalkedExtends(n, ok, chosen + [from], from + 1, size, x);
    WalkedExtends(n, ok, chosen, from + 1, size, y);
    TakenComesFirst(n, chosen, from, size, x, y);
  }

  lemma {:induction false} FilteredOrdered(n: nat, ok: seq<nat> -> bool, chosen: seq<nat>, from: nat, size: nat)
    requires IsPrefix(chosen, from)
    ensures Ordered(Filtered(n, ok, chosen, from, size))
    decreases if from < n then n - from else 0
  {
    if |chosen| < size {
      if from < n {
        FilteredOrdered(n, ok, chosen + [from], from + 1, size);
        FilteredOrdered(n, ok, chosen, from + 1, size);
        SplitOrdered(n, ok, chosen, from, size);
      }
    }
  }

  lemma SplitOrdered(n: nat, ok: seq<nat> -> bool, chosen: seq<nat>, from: nat, size: nat)
    requires IsPrefix(chosen, from) && |chosen| < size && from < n
    requires Ordered(Filtered(n, ok, chosen + [from], from + 1, size)) && Ordered(Filtered(n, ok, chosen, from + 1, size))
    ensures Ordered(Filtered(n, ok, chosen + [from], from + 1, size) + Filtered(n, ok, chosen, from + 1, size))
  {
    var with, without := Filtered(n, ok, chosen + [from], from + 1, size), Filtered(n, ok, chosen, from + 1, size);
    forall x, y | x in with && y in without ensures Before(x, y) {
      TakenBeforeLeft(n, ok, chosen, from, size, x, y);
    }
    OrderedConcat(with, without);
  }

  lemma OfOneSize(n: nat, ok: seq<nat> -> bool, size: nat)
    ensures Ordered(Filtered(n, ok, [], 0, size))
    ensures forall t :: t in Filtered(n, ok, [], 0, size) <==> |t| == size && IsSubset(n, t) && ok(t)
  {
    FilteredOrdered(n, ok, [], 0, size);
    forall t ensures t in Filtered(n, ok, [], 0, size) <==> |t| == size && IsSubset(n, t) && ok(t) {
      FilteredMembers(n, ok, [], 0, size, t);
      assert t[..0] == [];
    }
  }

  /** The walk over all sizes: exactly the accepted subsets, each once, by size and then lexicographically. */
  lemma {:induction false} FilteredBySizeFacts(n: nat, ok: seq<nat> -> bool, upTo: nat)
    ensures Ordered(FilteredBySize(n, ok, upTo))
    ensures forall t :: t in FilteredBySize(n, ok, upTo) <==> |t| < upTo && IsSubset(n, t) && ok(t)
  {
    if upTo > 0 {
      FilteredBySizeFacts(n, ok, upTo - 1);
      OfOneSize(n, ok, upTo - 1);
      OrderedConcat(FilteredBySize(n, ok, upTo - 1), Filtered(n, ok, [], 0, upTo - 1));
    }
  }

  ghost predicate IsSubset(n: nat, t: seq<nat>) { Increasing(t) && forall i :: 0 <= i < |t| ==> t[i] < n }

  lemma {:induction false} SubsetIsSmall(n: nat, t: seq<nat>)
    requires IsSubset(n, t)
    ensures |t| <= n
    decreases n
  {
    if t != [] {
      var last := t[|t| - 1];
      assert forall i :: 0 <= i < |t| - 1 ==> t[i] < last;
      SubsetIsSmall(last, t[..|t| - 1]);
    }
  }
}

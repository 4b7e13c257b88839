/** The bounded search over selections: measure, cache, visit, and stop at the first that fits.

The tokenizer is an arbitrary function of the set of selected blocks: nothing is assumed about how the
count of a rendering relates to the counts of its parts.
*/
module Correction {
  import opened Options
  import opened Utf16
  import opened Numbers
  import opened Selections
  import opened Choices
  import opened Allocation

  // ---------- sums ----------

  /** The sum of the token counts, or nothing once it is no safe integer. */
  method SumTokens(cs: seq<Candidate>) returns (sum: Option<nat>)
    ensures sum == if Total(cs, Tokens()) <= MAX_SAFE_INTEGER then Some(Total(cs, Tokens())) else None
  {
    var total := 0;
    for i := 0 to |cs|
      invariant total == Total(cs[..i], Tokens()) <= MAX_SAFE_INTEGER
    {
      OneMoreTotal(cs, i);
      total := total + cs[i].tokens;
      if total > MAX_SAFE_INTEGER { return None; }
    }
    assert cs[..|cs|] == cs;
    return Some(total);
  }

  /** Content the ceiling rules out.  A sum that is no safe integer compares as not greater. */
  predicate IsRuledOut(available: nat, content: nat) { available < content <= MAX_SAFE_INTEGER }

  // ---------- the walk over selections ----------

  /** What a visit depends on: the blocks of a selection and the sum of their tokens. */
  datatype Key = Key(ids: set<Text>, content: nat)

  function KeyOf(selection: seq<Candidate>): Key { Key(Ids(selection), Total(selection, Tokens())) }

  function KeysOf(selections: seq<seq<Candidate>>): (keys: seq<Key>)
    ensures |keys| == |selections| && forall i :: 0 <= i < |keys| ==> keys[i] == KeyOf(selections[i])
  {
    seq(|selections|, i requires 0 <= i < |selections| => KeyOf(selections[i]))
  }

  datatype Visit = LimitReached | RuledOut | Unmeasured | Measured(tokens: nat)

  /** What visiting a selection shows, if it is admitted. */
  function Shown(available: nat, render: set<Text> -> Option<nat>, key: Key): Visit {
    if IsRuledOut(available, key.content) then RuledOut
    else
      match render(key.ids)
      case None => Unmeasured
      case Some(tokens) => Measured(tokens)
  }

  /** The selection is rendered within the budget. */
  predicate Fits(available: nat, render: set<Text> -> Option<nat>, key: Key) {
    && !IsRuledOut(available, key.content)
    && render(key.ids).Some? && render(key.ids).value <= available
  }

  /** Why a walk ends: at the first fit, at the bound, at a failing measurement, or with the list. */
  datatype Stop = Ended | AtLimit | AtFailure | AtFit(ids: set<Text>, tokens: nat)

  datatype Walked = Walked(stop: Stop, visited: set<set<Text>>)

  /** Visits keys in order until one fits. */
  function Walk(available: nat, max: nat, render: set<Text> -> Option<nat>, keys: seq<Key>, visited: set<set<Text>>): Walked
    decreases |keys|
  {
    if keys == [] then Walked(Ended, visited)
    else if keys[0].ids !in visited && |visited| == max then Walked(AtLimit, visited)
    else
      match Shown(available, render, keys[0])
      case Unmeasured => Walked(AtFailure, visited + {keys[0].ids})
      case Measured(tokens) =>
        if tokens <= available then Walked(AtFit(keys[0].ids, tokens), visited + {keys[0].ids})
        else Walk(available, max, render, keys[1..], visited + {keys[0].ids})
      case _ => Walk(available, max, render, keys[1..], visited + {keys[0].ids})
  }

  /** The first of some keys that fits. */
  ghost predicate IsFirstFit(keys: seq<Key>, available: nat, render: set<Text> -> Option<nat>, ids: set<Text>, tokens: nat) {
    exists i :: 0 <= i < |keys| && keys[i].ids == ids && Fits(available, render, keys[i]) && render(ids) == Some(tokens)
      && forall j :: 0 <= j < i ==> !Fits(available, render, keys[j])
  }

  /** Why a walk stopped, in terms of the keys it was given. */
  ghost predicate Explains(keys: seq<Key>, available: nat, max: nat, render: set<Text> -> Option<nat>, w: Walked) {
    match w.stop
    case Ended => forall key :: key in keys ==>
      key.ids in w.visited && !Fits(available, render, key) && Shown(available, render, key) != Unmeasured
    case AtLimit => |w.visited| == max && exists key :: key in keys && key.ids !in w.visited
    case AtFailure => exists key :: key in keys && Shown(available, render, key) == Unmeasured
    case AtFit(ids, tokens) => IsFirstFit(keys, available, render, ids, tokens)
  }

  /** Too dear by its sum alone, or measured over the budget: a walk goes on past this key. */
  predicate IsPassed(available: nat, render: set<Text> -> Option<nat>, key: Key) {
    available < key.content <= MAX_SAFE_INTEGER || (render(key.ids).Some? && render(key.ids).value > available)
  }

  ghost predicate StopsAt(keys: seq<Key>, available: nat, render: set<Text> -> Option<nat>, w: Walked, i: int) {
    && 0 <= i < |keys| && (forall j :: 0 <= j < i ==> IsPassed(available, render, keys[j]))
    && match w.stop
       case AtFit(ids, tokens) =>
         keys[i].ids == ids && !IsPassed(available, render, keys[i]) && render(ids) == Some(tokens) && tokens <= available
       case AtFailure => !IsPassed(available, render, keys[i]) && render(keys[i].ids).None?
       case AtLimit => keys[i].ids !in w.visited
       case Ended => false
  }

  /** A walk goes on past every key before the one it stops at: the first that fits, that cannot be measured, or that
  the bound does not admit. */
  lemma {:induction false} WalkStopsFirst(available: nat, max: nat, render: set<Text> -> Option<nat>, keys: seq<Key>, visited: set<set<Text>>)
    requires |visited| <= max
    ensures var w := Walk(available, max, render, keys, visited);
      if w.stop.Ended? then forall key :: key in keys ==> IsPassed(available, render, key)
      else exists i :: StopsAt(keys, available, render, w, i)
    decreases |keys|
  {
    if keys != [] {
      var w, more := Walk(available, max, render, keys, visited), visited + {keys[0].ids};
      assert keys == [keys[0]] + keys[1..];
      if (keys[0].ids in visited || |visited| < max) && IsPassed(available, render, keys[0]) {
        if keys[0].ids in visited { assert more == visited; }
        WalkStopsFirst(available, max, render, keys[1..], more);
        if !w.stop.Ended? {
          var i :| StopsAt(keys[1..], available, render, w, i);
          assert StopsAt(keys, available, render, w, i + 1);
        }
      } else {
        assert StopsAt(keys, available, render, w, 0);
      }
    }
  }

  /** The sets a list of keys names. */
  function Sets(keys: seq<Key>): set<set<Text>> { set key | key in keys :: key.ids }

  lemma TailSets(keys: seq<Key>)
    requires keys != []
    ensures Sets(keys) == {keys[0].ids} + Sets(keys[1..])
  {
    assert keys == [keys[0]] + keys[1..];
  }

  /** A walk visits only what it is given, and never more than the bound. */
  lemma {:induction false} WalkVisits(available: nat, max: nat, render: set<Text> -> Option<nat>, keys: seq<Key>, visited: set<set<Text>>)
    requires |visited| <= max
    ensures var w := Walk(available, max, render, keys, visited);
      visited <= w.visited <= visited + Sets(keys) && |w.visited| <= max
    decreases |keys|
  {
    if keys != [] && (keys[0].ids in visited || |visited| < max) {
      TailSets(keys);
      if keys[0].ids in visited { assert visited + {keys[0].ids} == visited; }
      WalkVisits(available, max, render, keys[1..], visited + {keys[0].ids});
    }
  }

  lemma ExplainsMore(keys: seq<Key>, available: nat, max: nat, render: set<Text> -> Option<nat>, w: Walked)
    requires keys != [] && Explains(keys[1..], available, max, render, w) && keys[0].ids in w.visited
    requires !Fits(available, render, keys[0]) && Shown(available, render, keys[0]) != Unmeasured
    ensures Explains(keys, available, max, render, w)
  {
    var tail := keys[1..];
    assert keys == [keys[0]] + tail;
    match w.stop
    case AtFit(ids, tokens) =>
      var i :| 0 <= i < |tail| && tail[i].ids == ids && Fits(available, render, tail[i]) && forall j :: 0 <= j < i ==> !Fits(available, render, tail[j]);
      assert keys[i + 1].ids == ids;
      forall j | 0 <= j < i + 1 ensures !Fits(available, render, keys[j]) { if j > 0 { assert keys[j] == tail[j - 1]; } }
    case _ =>
  }

  /** A walk stops for the reason it gives. */
  lemma {:induction false} WalkExplains(available: nat, max: nat, render: set<Text> -> Option<nat>, keys: seq<Key>, visited: set<set<Text>>)
    requires |visited| <= max
    ensures Explains(keys, available, max, render, Walk(available, max, render, keys, visited))
    decreases |keys|
  {
    if keys != [] {
      assert keys[0] in keys;
      if keys[0].ids in visited || |visited| < max {
        var more := visited + {keys[0].ids};
        if keys[0].ids in visited { assert more == visited; }
        WalkVisits(available, max, render, keys[1..], more);
        WalkExplains(available, max, render, keys[1..], more);
        var shown := Shown(available, render, keys[0]);
        if shown.RuledOut? || (shown.Measured? && shown.tokens > available) {
          ExplainsMore(keys, available, max, render, Walk(available, max, render, keys[1..], more));
        }
      }
    }
  }

  // ---------- the search ----------

  predicate Distinct<T(==)>(s: seq<T>) { forall i, j :: 0 <= i < j < |s| ==> s[i] != s[j] }

  /** Bookkeeping shared by every phase of one correction. */
  class Search {
    const available: nat
    const maxSelections: nat
    const render: set<Text> -> Option<nat>
    const initial: set<Text>
    var measured: map<set<Text>, nat>
    var visited: set<set<Text>>
    ghost var tokenized: seq<set<Text>>

    constructor (available: nat, maxSelections: nat, render: set<Text> -> Option<nat>, initial: set<Text>, tokens: nat)
      requires render(initial) == Some(tokens)
      ensures this.available == available && this.maxSelections == maxSelections && this.render == render && this.initial == initial
      ensures Valid() && visited == {} && tokenized == []
    {
      this.available, this.maxSelections, this.render, this.initial := available, maxSelections, render, initial;
      measured, visited, tokenized := map[initial := tokens], {}, [];
    }

    /** The cache holds true measurements, no selection was tokenized twice, the one the renderer measured
    not at all, and the bound is kept. */
    ghost predicate Valid()
      reads this
    {
      && (forall ids :: ids in measured ==> render(ids) == Some(measured[ids]))
      && Distinct(tokenized) && (forall ids :: ids in tokenized ==> ids in measured)
      && initial in measured && initial !in tokenized
      && |visited| <= maxSelections
    }

    /** Renders and tokenizes a selection, unless that was done before. */
    method Measure(ids: set<Text>) returns (tokens: Option<nat>)
      requires Valid()
      modifies this`measured, this`tokenized
      ensures Valid() && tokens == render(ids)
    {
      if ids in measured { return Some(measured[ids]); }
      tokens := render(ids);
      if tokens.Some? {
        measured := measured[ids := tokens.value];
        tokenized := tokenized + [ids];
      }
    }

    /** Visits one selection: the bound is checked before it is admitted, the ceiling before it is rendered. */
    method Visit(selection: seq<Candidate>) returns (v: Visit)
      requires Valid()
      modifies this
      ensures Valid()
      ensures if Ids(selection) !in old(visited) && |old(visited)| == maxSelections
        then v == LimitReached && visited == old(visited)
        else v == Shown(available, render, KeyOf(selection)) && visited == old(visited) + {Ids(selection)}
    {
      var key := Ids(selection);
      if key !in visited {
        if |visited| == maxSelections { return LimitReached; }
        visited := visited + {key};
      }
      var sum := SumTokens(selection);
      if sum.Some? && sum.value > available { return RuledOut; }
      var tokens := Measure(key);
      v := if tokens.None? then Unmeasured else Measured(tokens.value);
    }

    /** Walks selections in order until one is rendered within the budget, the bound is reached, or the
    tokenizer fails. */
    method TryAll(selections: seq<seq<Candidate>>) returns (stop: Stop, selection: seq<Candidate>)
      requires Valid()
      modifies this
      ensures Valid()
      ensures Walked(stop, visited) == Walk(available, maxSelections, render, KeysOf(selections), old(visited))
      ensures stop.AtFit? ==> selection in selections && Ids(selection) == stop.ids
      ensures Explains(KeysOf(selections), available, maxSelections, render, Walked(stop, visited))
    {
      ghost var keys := KeysOf(selections);
      WalkExplains(available, maxSelections, render, keys, visited);
      selection := [];
      assert keys[0..] == keys;
      for i := 0 to |selections|
        invariant Valid() && Walk(available, maxSelections, render, keys, old(visited)) == Walk(available, maxSelections, render, keys[i..], visited)
      {
        assert keys[i..][0] == keys[i] && keys[i..][1..] == keys[i + 1..];
        var v := Visit(selections[i]);
        match v {
          case LimitReached => return AtLimit, [];
          case Unmeasured => return AtFailure, [];
          case RuledOut =>
          case Measured(tokens) =>
            if tokens <= available { return AtFit(Ids(selections[i]), tokens), selections[i]; }
        }
      }
      return Ended, [];
    }
  }
}

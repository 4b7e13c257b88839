/** Runs of a deterministic machine, and when one machine's runs follow another's. */
module Histories {
  function Run<S, Op, Out>(step: (S, Op) -> (S, Out), s: S, ops: seq<Op>): (S, seq<Out>)
    decreases |ops|
  {
    if ops == [] then (s, [])
    else
      var first := step(s, ops[0]);
      var rest := Run(step, first.0, ops[1..]);
      (rest.0, [first.1] + rest.1)
  }

  /** A history answers every operation, in order, from the state the operations before it left. */
  lemma {:induction false} RunAt<S, Op, Out>(step: (S, Op) -> (S, Out), s: S, ops: seq<Op>, i: nat)
    requires i < |ops|
    ensures |Run(step, s, ops).1| == |ops|
    ensures Run(step, s, ops).1[i] == step(Run(step, s, ops[..i]).0, ops[i]).1
    ensures Run(step, s, ops[..i + 1]).0 == step(Run(step, s, ops[..i]).0, ops[i]).0
    decreases |ops|
  {
    var after := step(s, ops[0]).0;
    Answers(step, s, ops);
    assert ops[..i + 1][0] == ops[0] && ops[..i + 1][1..] == ops[1..][..i];
    if i == 0 {
      assert ops[..0] == [] && ops[1..][..0] == [];
    } else {
      RunAt(step, after, ops[1..], i - 1);
      assert ops[..i][0] == ops[0] && ops[..i][1..] == ops[1..][..i - 1];
    }
  }

  lemma {:induction false} Answers<S, Op, Out>(step: (S, Op) -> (S, Out), s: S, ops: seq<Op>)
    ensures |Run(step, s, ops).1| == |ops|
    ensures ops == [] ==> Run(step, s, ops).0 == s
    decreases |ops|
  {
    if ops != [] { Answers(step, step(s, ops[0]).0, ops[1..]); }
  }

  /** Every step of the first machine gives the same answer as one of the second and keeps the states
  related. */
  ghost predicate Simulates<S(!new), T(!new), Op(!new), Out(!new)>(
    step: (S, Op) -> (S, Out), spec: (T, Op) -> (T, Out), related: (S, T) -> bool)
  {
    forall s, t, op :: related(s, t) ==>
      related(step(s, op).0, spec(t, op).0) && step(s, op).1 == spec(t, op).1
  }

  lemma {:induction false} RunsAgree<S(!new), T(!new), Op(!new), Out(!new)>(
    step: (S, Op) -> (S, Out), spec: (T, Op) -> (T, Out), related: (S, T) -> bool, s: S, t: T, ops: seq<Op>)
    requires Simulates(step, spec, related) && related(s, t)
    ensures related(Run(step, s, ops).0, Run(spec, t, ops).0)
    ensures Run(step, s, ops).1 == Run(spec, t, ops).1
    decreases |ops|
  {
    if ops != [] {
      RunsAgree(step, spec, related, step(s, ops[0]).0, spec(t, ops[0]).0, ops[1..]);
    }
  }
}

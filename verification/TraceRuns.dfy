/** What the audit store promises over whole runs of interleaved connections. */
module TraceRuns {
  import opened Options
  import opened Results
  import opened Utf16
  import opened StoredCells
  import opened Scopes
  import opened TraceStore
  import opened TraceMachine

  // ---------- a writer can always finish ----------

  lemma AfterOne(s: State, a: Action)
    requires Enabled(s, a)
    ensures After(s, [a]) == Some(Next(s, a))
  {
    assert [a][..0] == [];
  }

  lemma {:induction false} AfterConcat(s: State, a: seq<Action>, b: seq<Action>)
    requires After(s, a).Some?
    ensures After(s, a + b) == After(After(s, a).value, b)
    decreases |b|
  {
    if b == [] {
      assert a + b == a;
    } else {
      var n := |b| - 1;
      AfterConcat(s, a, b[..n]);
      assert (a + b)[..|a + b| - 1] == a + b[..n] && (a + b)[|a + b| - 1] == b[n];
    }
  }

  /** The holder's own steps settled its call by the atomic put. */
  ghost predicate SettlesBy(s: State, c: nat, actions: seq<Action>) {
    && Working(s, c) && After(s, actions).Some?
    && var now := After(s, actions).value; var r := s.phases[c].record;
       && now.lock == None && now.rows == Put(s.rows, r).0
       && now.log == s.log + [Settled(c, r, Put(s.rows, r).1)]
  }

  /** Once decided, the holder can settle. */
  lemma DecidedSettles(s: State, c: nat) returns (actions: seq<Action>)
    requires Inv(s) && Working(s, c) && s.phases[c].Decided?
    ensures SettlesBy(s, c, actions)
  {
    assert Current(s.rows, s.phases[c]);
    match s.phases[c].decision
    case AlreadyStored =>
      actions := [Commit(c)];
      AfterOne(s, Commit(c));
    case Refuse(f) =>
      actions := [RollBack(c)];
      AfterOne(s, RollBack(c));
    case Insert(row) =>
      actions := [Write(c)] + [Commit(c)];
      AfterOne(s, Write(c));
      StepKeeps(s, Write(c));
      var written := Next(s, Write(c));
      CommitIsPut(written, c);
      AfterOne(written, Commit(c));
      AfterConcat(s, [Write(c)], [Commit(c)]);
  }

  /** A writer that holds the lock can always finish by its own steps alone, and if nothing fails its
  outcome is that of the atomic put on the rows of that moment. */
  lemma HolderCanSettle(s: State, c: nat) returns (actions: seq<Action>)
    requires Inv(s) && s.lock == Some(c)
    ensures SettlesBy(s, c, actions)
  {
    assert Working(s, c) && Current(s.rows, s.phases[c]);
    match s.phases[c]
    case Begun(r) =>
      AfterOne(s, Check(c));
      StepKeeps(s, Check(c));
      var checked := Next(s, Check(c));
      var rest := DecidedSettles(checked, c);
      AfterConcat(s, [Check(c)], rest);
      actions := [Check(c)] + rest;
    case Decided(_, _) => actions := DecidedSettles(s, c);
    case Written(_, _) =>
      CommitIsPut(s, c);
      AfterOne(s, Commit(c));
      actions := [Commit(c)];
  }

  // ---------- every call can be answered ----------

  lemma BeginSettles(s: State, c: nat, r: Record) returns (actions: seq<Action>)
    requires Inv(s) && c < |s.phases| && s.phases[c] == Idle && r.Valid() && s.lock.None?
    ensures After(s, actions).Some?
    ensures var now := After(s, actions).value;
      now.rows == Put(s.rows, r).0 && now.log == s.log + [Settled(c, r, Put(s.rows, r).1)]
  {
    AfterOne(s, Begin(c, r));
    StepKeeps(s, Begin(c, r));
    var begun := Next(s, Begin(c, r));
    var rest := HolderCanSettle(begun, c);
    AfterConcat(s, [Begin(c, r)], rest);
    actions := [Begin(c, r)] + rest;
  }

  /** At any moment a resting connection can have its write answered by its own steps alone: an input that is no
  record is refused, a foreign lock fails the write, and otherwise the outcome is that of the atomic put. */
  lemma EveryWriteAnswers(s: State, c: nat, r: Record) returns (actions: seq<Action>)
    requires Inv(s) && c < |s.phases| && s.phases[c] == Idle
    ensures After(s, actions).Some?
    ensures var now := After(s, actions).value;
      && now.log == s.log + [Settled(c, r, if r.Valid() && s.lock.Some? then Failed(WriteFailed) else Put(s.rows, r).1)]
      && now.rows == if r.Valid() && s.lock.None? then Put(s.rows, r).0 else s.rows
  {
    if !r.Valid() {
      actions := [Reject(c, r)];
      AfterOne(s, Reject(c, r));
    } else if s.lock.Some? {
      actions := [Busy(c, r)];
      AfterOne(s, Busy(c, r));
    } else {
      actions := BeginSettles(s, c, r);
    }
  }

  /** A resting connection can read, whoever holds the lock, and is answered from the committed rows. */
  lemma EveryReadAnswers(s: State, c: nat, scope: Scope, id: Text)
    requires c < |s.phases| && s.phases[c] == Idle
    ensures After(s, [Read(c, scope, id)]).Some?
    ensures var now := After(s, [Read(c, scope, id)]).value;
      now.rows == s.rows && now.log == s.log + [Answered(c, scope, id, Get(s.rows, scope, id))]
  {
    AfterOne(s, Read(c, scope, id));
  }

  // ---------- stored rows stay ----------

  /** No step of any write changes, moves or removes a row, tampered or not. */
  lemma WritesOnlyAppend(s: State, actions: seq<Action>, a: Action)
    requires Initial(s) && After(s, actions).Some?
    requires var now := After(s, actions).value; Enabled(now, a) && !a.Tamper?
    ensures var now := After(s, actions).value;
      && now.rows <= Next(now, a).rows && |Next(now, a).rows| <= |now.rows| + 1
      && UniqueIds(Next(now, a).rows)
  {
    Serializable(s, actions);
    var now := After(s, actions).value;
    StepRefines(now, a);
    if a.Commit? {
      CommitIsPut(now, a.c);
      PutAppends(now.rows, now.phases[a.c].record);
    }
  }

  ghost predicate Untampered(log: seq<Event>, lo: nat, hi: nat)
    requires hi <= |log|
  {
    forall k | lo <= k < hi :: !log[k].Tampered?
  }

  lemma {:induction false} SelectKept(t: Table, row: Row, id: Text)
    requires Select(t, id).Some?
    ensures Select(t + [row], id) == Select(t, id)
  {
    if t[0].id != id {
      assert (t + [row])[1..] == t[1..] + [row];
      SelectKept(t[1..], row, id);
    }
  }

  lemma ApplyKeeps(t: Table, e: Event, id: Text)
    requires UniqueIds(t) && !e.Tampered? && Select(t, id).Some?
    ensures Select(Apply(t, e), id) == Select(t, id)
  {
    if e.Settled? {
      PutAppends(t, e.record);
      SelectKept(t, ToRow(e.record), id);
    }
  }

  lemma {:induction false} ReplayUnique(t: Table, log: seq<Event>)
    requires UniqueIds(t) && AllExplained(t, log)
    ensures UniqueIds(Replay(t, log))
  {
    if log != [] {
      var earlier, e := log[..|log| - 1], log[|log| - 1];
      assert log == earlier + [e];
      ReplayStep(t, earlier, e);
      ReplayUnique(t, earlier);
      if e.Settled? { PutAppends(Replay(t, earlier), e.record); }
    }
  }

  lemma PrefixExplained(t: Table, log: seq<Event>, i: nat)
    requires AllExplained(t, log) && i <= |log|
    ensures AllExplained(t, log[..i])
  {
    var part := log[..i];
    forall k | 0 <= k < |part|
      ensures Explained(Replay(t, part[..k]), part[k])
    {
      assert part[..k] == log[..k];
      assert Explained(Replay(t, log[..k]), log[k]);
    }
  }

  lemma ReplayAt(t: Table, log: seq<Event>, i: nat)
    requires AllExplained(t, log) && UniqueIds(t) && i < |log|
    ensures Replay(t, log[..i + 1]) == Apply(Replay(t, log[..i]), log[i])
    ensures Explained(Replay(t, log[..i]), log[i]) && UniqueIds(Replay(t, log[..i]))
  {
    assert log[..i + 1] == log[..i] + [log[i]];
    ReplayStep(t, log[..i], log[i]);
    PrefixExplained(t, log, i);
    ReplayUnique(t, log[..i]);
  }

  /** Until somebody tampers, a row that is there stays what it is. */
  lemma {:induction false} RowPersists(t: Table, log: seq<Event>, i: nat, j: nat, id: Text)
    requires AllExplained(t, log) && UniqueIds(t) && i <= j <= |log| && Untampered(log, i, j)
    requires Select(Replay(t, log[..i]), id).Some?
    ensures Select(Replay(t, log[..j]), id) == Select(Replay(t, log[..i]), id)
    decreases j
  {
    if i < j {
      RowPersists(t, log, i, j - 1, id);
      ReplayAt(t, log, j - 1);
      ApplyKeeps(Replay(t, log[..j - 1]), log[j - 1], id);
    }
  }

  /** What the column keeps of a record. */
  function Kept(r: Record): Record { r.(compilationId := Bind(r.compilationId)) }

  /** The row a settled write leaves, read back at any later moment before tampering. */
  lemma StoredRowLater(t: Table, log: seq<Event>, i: nat, j: nat)
    requires AllExplained(t, log) && UniqueIds(t) && i < j <= |log| && Untampered(log, i + 1, j)
    requires log[i].Settled? && log[i].outcome.Stored?
    ensures var r := log[i].record; var row := Select(Replay(t, log[..j]), Bind(r.compilationId));
      && row.Some? && ReadStored(row.value) == Ok(Kept(r)) && row.value.scopeKey == TextColumn(ScopeKey(r.scope))
      && r.Valid()
  {
    var r := log[i].record;
    ReplayAt(t, log, i);
    PutStores(Replay(t, log[..i]), r);
    RowPersists(t, log, i + 1, j, Bind(r.compilationId));
  }

  // ---------- races ----------

  /** Races: once one connection has stored a record, every later write of the same identifier from any
  connection is an idempotent success for that very record and a conflict for any other, unless it
  failed to run at all; and none of them inserts anything. */
  lemma LaterWritesAgree(s: State, actions: seq<Action>, i: nat, j: nat)
    requires Initial(s) && After(s, actions).Some?
    requires var log := After(s, actions).value.log;
      && i < j < |log| && Untampered(log, i + 1, j)
      && log[i].Settled? && log[i].outcome.Stored? && log[j].Settled?
      && Bind(log[i].record.compilationId) == Bind(log[j].record.compilationId)
    ensures var log := After(s, actions).value.log; var first, later := log[i].record, log[j].record;
      && (log[j].outcome == Failed(WriteFailed)
          || log[j].outcome == (if !later.Valid() then Failed(InvalidInput)
                                else if later == Kept(first) then Stored else Failed(TraceConflict)))
      && Replay(s.rows, log[..j + 1]) == Replay(s.rows, log[..j])
  {
    Serializable(s, actions);
    var log := After(s, actions).value.log;
    var first, later := log[i].record, log[j].record;
    StoredRowLater(s.rows, log, i, j);
    ReplayAt(s.rows, log, j);
    var t := Replay(s.rows, log[..j]);
    assert Explained(t, log[j]);
    AgainstStored(t, first, later);
  }

  lemma AgainstStored(t: Table, first: Record, later: Record)
    requires var row := Select(t, Bind(later.compilationId)); row.Some? && ReadStored(row.value) == Ok(Kept(first))
    requires first.Valid()
    ensures Put(t, later).0 == t
    ensures Put(t, later).1 == if !later.Valid() then Failed(InvalidInput)
                               else if later == Kept(first) then Stored else Failed(TraceConflict)
  {
    if later.Valid() { EnvelopeDecides(Kept(first), later); }
  }

  /** Two different records never both succeed under one identifier, in whatever order their steps
  interleave, when identifiers are well-formed text. */
  lemma OneWinner(s: State, actions: seq<Action>, i: nat, j: nat)
    requires Initial(s) && After(s, actions).Some?
    requires var log := After(s, actions).value.log;
      && i < j < |log| && Untampered(log, i + 1, j) && log[i].Settled? && log[j].Settled?
      && log[i].outcome.Stored? && log[j].outcome.Stored?
      && log[i].record.compilationId == log[j].record.compilationId
    ensures var log := After(s, actions).value.log;
      log[i].record == log[j].record && WellFormed(log[i].record.compilationId)
  {
    LaterWritesAgree(s, actions, i, j);
    var log := After(s, actions).value.log;
    BindIsIdentity(log[i].record.compilationId);
  }

  /** A read of a stored record by any connection, at any later moment before tampering, answers it. */
  lemma ReadsSeeStored(s: State, actions: seq<Action>, i: nat, j: nat)
    requires Initial(s) && After(s, actions).Some?
    requires var log := After(s, actions).value.log;
      && i < j < |log| && Untampered(log, i + 1, j)
      && log[i].Settled? && log[i].outcome.Stored? && log[j].Answered?
      && log[j].scope == log[i].record.scope && log[j].id == log[i].record.compilationId
    ensures var log := After(s, actions).value.log; log[j].answer == Ok(Some(Kept(log[i].record)))
  {
    Serializable(s, actions);
    var log := After(s, actions).value.log;
    StoredRowLater(s.rows, log, i, j);
    ReplayAt(s.rows, log, j);
  }
}

/** Writes of the audit store from any number of connections at once.

A write is no longer one call but four steps: begin (which takes the write lock or fails at once), read
and decide, insert, and commit or roll back.  Steps of different connections interleave freely, a
reader sees the committed rows at any moment, and while nobody holds the lock an outside writer may
put any rows in the table, as long as identifiers stay unique.
*/
module TraceMachine {
  import opened Options
  import opened Results
  import opened Utf16
  import opened Scopes
  import opened StoredCells
  import opened TraceStore

  datatype Phase =
    | Idle
    | Begun(record: Record)
    | Decided(record: Record, decision: Decision)
    | Written(record: Record, view: Table)

  datatype Event =
    | Settled(writer: nat, record: Record, outcome: Outcome)
    | Answered(reader: nat, scope: Scope, id: Text, answer: Result<Option<Record>, Failure>)
    | Tampered(rows: Table)

  /** Connections are numbered; `phases` lists each of them.  `log` records what became visible, in order. */
  datatype State = State(rows: Table, lock: Option<nat>, phases: seq<Phase>, log: seq<Event>)

  datatype Action =
    | Begin(c: nat, record: Record)
    | Busy(c: nat, record: Record)
    | Reject(c: nat, record: Record)
    | Check(c: nat)
    | Write(c: nat)
    | Commit(c: nat)
    | RollBack(c: nat)
    | Abort(c: nat)
    | Read(c: nat, scope: Scope, id: Text)
    | Tamper(rows: Table)

  /** Whether `c` is a connection in the middle of a write. */
  predicate Working(s: State, c: nat) { c < |s.phases| && s.phases[c] != Idle }

  predicate Resting(s: State, c: nat) { c < |s.phases| && s.phases[c] == Idle }

  ghost predicate Enabled(s: State, a: Action) {
    match a
    case Begin(c, r) => Resting(s, c) && r.Valid() && s.lock.None?
    case Busy(c, r) => Resting(s, c) && r.Valid() && s.lock.Some?
    case Reject(c, r) => Resting(s, c) && !r.Valid()
    case Check(c) => Working(s, c) && s.phases[c].Begun?
    case Write(c) => Working(s, c) && s.phases[c].Decided? && s.phases[c].decision.Insert?
    case Commit(c) => Working(s, c) && (s.phases[c].Written? || (s.phases[c].Decided? && s.phases[c].decision.AlreadyStored?))
    case RollBack(c) => Working(s, c) && s.phases[c].Decided? && s.phases[c].decision.Refuse?
    case Abort(c) => Working(s, c)
    case Read(c, _, _) => Resting(s, c)
    case Tamper(rows) => s.lock.None? && UniqueIds(rows)
  }

  /** The call of connection `c` returns: the lock is free again, and the outcome is visible. */
  function Settle(s: State, c: nat, rows: Table, outcome: Outcome): State
    requires Working(s, c)
  {
    State(rows, None, s.phases[c := Idle], s.log + [Settled(c, s.phases[c].record, outcome)])
  }

  function Next(s: State, a: Action): State
    requires Enabled(s, a)
  {
    match a
    case Begin(c, r) => s.(lock := Some(c), phases := s.phases[c := Begun(r)])
    case Busy(c, r) => s.(log := s.log + [Settled(c, r, Failed(WriteFailed))])
    case Reject(c, r) => s.(log := s.log + [Settled(c, r, Failed(InvalidInput))])
    case Check(c) => s.(phases := s.phases[c := Decided(s.phases[c].record, Decide(s.rows, s.phases[c].record))])
    case Write(c) => s.(phases := s.phases[c := Written(s.phases[c].record, s.rows + [s.phases[c].decision.row])])
    case Commit(c) => Settle(s, c, if s.phases[c].Written? then s.phases[c].view else s.rows, Stored)
    case RollBack(c) => Settle(s, c, s.rows, Failed(s.phases[c].decision.failure))
    case Abort(c) => Settle(s, c, s.rows, Failed(WriteFailed))
    case Read(c, scope, id) => s.(log := s.log + [Answered(c, scope, id, Get(s.rows, scope, id))])
    case Tamper(rows) => s.(rows := rows, log := s.log + [Tampered(rows)])
  }

  /** The state after a list of actions, when each is enabled in its turn. */
  ghost function After(s: State, actions: seq<Action>): Option<State>
    decreases |actions|
  {
    if actions == [] then Some(s)
    else
      var before := After(s, actions[..|actions| - 1]);
      var last := actions[|actions| - 1];
      if before.Some? && Enabled(before.value, last) then Some(Next(before.value, last)) else None
  }

  ghost predicate Initial(s: State) {
    UniqueIds(s.rows) && s.lock.None? && s.log == [] && forall c | 0 <= c < |s.phases| :: s.phases[c] == Idle
  }

  // ---------- what every step keeps ----------

  /** A decision taken inside the transaction is still the right one for the committed rows. */
  ghost predicate Current(rows: Table, p: Phase) {
    match p
    case Idle => true
    case Begun(r) => r.Valid()
    case Decided(r, d) => r.Valid() && d == Decide(rows, r)
    case Written(r, view) => r.Valid() && Decide(rows, r).Insert? && view == rows + [Decide(rows, r).row]
  }

  /** The connections in the middle of a write are exactly the lock holder. */
  ghost predicate Inv(s: State) {
    && UniqueIds(s.rows)
    && (s.lock.Some? ==> s.lock.value < |s.phases|)
    && (forall c: nat | c < |s.phases| :: Working(s, c) <==> s.lock == Some(c))
    && (forall c: nat | c < |s.phases| :: Current(s.rows, s.phases[c]))
  }

  // ---------- the atomic meaning of a log ----------

  /** One write as a single step on the rows. */
  function Apply(t: Table, e: Event): Table {
    match e
    case Settled(_, r, Stored) => Put(t, r).0
    case Tampered(rows) => rows
    case _ => t
  }

  /** An event that is possible as a single step on the rows. */
  ghost predicate Explained(t: Table, e: Event) {
    match e
    case Settled(_, r, o) => o == Put(t, r).1 || o == Failed(WriteFailed)
    case Answered(_, scope, id, answer) => answer == Get(t, scope, id)
    case Tampered(rows) => UniqueIds(rows)
  }

  ghost function Replay(t: Table, log: seq<Event>): Table {
    if log == [] then t else Apply(Replay(t, log[..|log| - 1]), log[|log| - 1])
  }

  ghost predicate AllExplained(t: Table, log: seq<Event>) {
    forall i | 0 <= i < |log| :: Explained(Replay(t, log[..i]), log[i])
  }

  lemma ReplayStep(t: Table, log: seq<Event>, e: Event)
    ensures Replay(t, log + [e]) == Apply(Replay(t, log), e)
    ensures AllExplained(t, log + [e]) <==> AllExplained(t, log) && Explained(Replay(t, log), e)
  {
    var longer := log + [e];
    assert longer[..|log|] == log && longer[|log|] == e;
    assert forall i | 0 <= i < |log| :: longer[..i] == log[..i] && longer[i] == log[i];
    if AllExplained(t, longer) {
      assert forall i | 0 <= i < |log| :: Explained(Replay(t, longer[..i]), longer[i]);
    }
  }

  /** Ending a write frees the lock; every other connection was resting already. */
  lemma SettleKeeps(s: State, c: nat, rows: Table, outcome: Outcome)
    requires Inv(s) && Working(s, c) && UniqueIds(rows)
    ensures Inv(Settle(s, c, rows, outcome))
  {
    var after := Settle(s, c, rows, outcome);
    forall k: nat | k < |s.phases|
      ensures after.phases[k] == Idle
    {
      assert Working(s, k) <==> s.lock == Some(k);
      assert Working(s, c) <==> s.lock == Some(c);
    }
  }

  /** A phase of the lock holder moves on. */
  lemma AdvanceKeeps(s: State, c: nat, p: Phase)
    requires Inv(s) && Working(s, c) && p != Idle && Current(s.rows, p)
    ensures Inv(s.(phases := s.phases[c := p]))
  {
    var after := s.(phases := s.phases[c := p]);
    forall k: nat | k < |s.phases|
      ensures Current(after.rows, after.phases[k]) && (Working(after, k) <==> after.lock == Some(k))
    {
      assert Working(s, k) <==> s.lock == Some(k);
      assert Current(s.rows, s.phases[k]);
    }
  }

  lemma BeginKeeps(s: State, c: nat, r: Record)
    requires Inv(s) && Enabled(s, Begin(c, r))
    ensures Inv(s.(lock := Some(c), phases := s.phases[c := Begun(r)]))
  {
    var after := s.(lock := Some(c), phases := s.phases[c := Begun(r)]);
    forall k: nat | k < |s.phases|
      ensures Current(after.rows, after.phases[k]) && (Working(after, k) <==> after.lock == Some(k))
    {
      assert Working(s, k) <==> s.lock == Some(k);
    }
  }

  /** With the lock free nobody has decided anything yet. */
  lemma TamperKeeps(s: State, rows: Table, log: seq<Event>)
    requires Inv(s) && UniqueIds(rows) && (s.lock.None? || rows == s.rows)
    ensures Inv(s.(rows := rows, log := log))
  {
    var after := s.(rows := rows, log := log);
    forall k: nat | k < |s.phases|
      ensures Current(rows, s.phases[k]) && (Working(after, k) <==> after.lock == Some(k))
    {
      assert Working(s, k) <==> s.lock == Some(k);
      assert Current(s.rows, s.phases[k]);
    }
  }

  lemma StepKeeps(s: State, a: Action)
    requires Inv(s) && Enabled(s, a)
    ensures Inv(Next(s, a))
  {
    match a
    case Begin(c, r) => BeginKeeps(s, c, r);
    case Check(c) =>
      assert Current(s.rows, s.phases[c]);
      AdvanceKeeps(s, c, Decided(s.phases[c].record, Decide(s.rows, s.phases[c].record)));
    case Write(c) =>
      assert Current(s.rows, s.phases[c]);
      AdvanceKeeps(s, c, Written(s.phases[c].record, s.rows + [s.phases[c].decision.row]));
    case Commit(c) =>
      CommitIsPut(s, c);
      PutAppends(s.rows, s.phases[c].record);
      SettleKeeps(s, c, if s.phases[c].Written? then s.phases[c].view else s.rows, Stored);
    case RollBack(c) => SettleKeeps(s, c, s.rows, Failed(s.phases[c].decision.failure));
    case Abort(c) => SettleKeeps(s, c, s.rows, Failed(WriteFailed));
    case Tamper(rows) => TamperKeeps(s, rows, Next(s, a).log);
    case _ => TamperKeeps(s, s.rows, Next(s, a).log);
  }

  lemma CommitIsPut(s: State, c: nat)
    requires Inv(s) && Enabled(s, Commit(c))
    ensures Put(s.rows, s.phases[c].record) == (if s.phases[c].Written? then s.phases[c].view else s.rows, Stored)
  {
    assert Current(s.rows, s.phases[c]);
  }

  /** What one step means: it keeps the invariant, and it either leaves rows and log alone or adds one
  event that changes the rows as that event does in one atomic step. */
  lemma StepRefines(s: State, a: Action)
    requires Inv(s) && Enabled(s, a)
    ensures Inv(Next(s, a))
    ensures var after := Next(s, a);
      || (after.rows == s.rows && after.log == s.log)
      || (|after.log| == |s.log| + 1 && after.log[..|s.log|] == s.log
          && Explained(s.rows, after.log[|s.log|]) && after.rows == Apply(s.rows, after.log[|s.log|]))
  {
    StepKeeps(s, a);
    match a
    case Commit(c) => CommitIsPut(s, c);
    case RollBack(c) => assert Current(s.rows, s.phases[c]);
    case _ =>
  }

  /** Every run is explained by its log: the rows are what the settled writes make of them one after
  another, every write had the outcome its atomic form has at that point or failed without effect, and
  every read answered from the rows of its moment. */
  lemma {:induction false} Serializable(s: State, actions: seq<Action>)
    requires Initial(s) && After(s, actions).Some?
    ensures var now := After(s, actions).value;
      Inv(now) && now.rows == Replay(s.rows, now.log) && AllExplained(s.rows, now.log)
    decreases |actions|
  {
    if actions != [] {
      var earlier, last := actions[..|actions| - 1], actions[|actions| - 1];
      Serializable(s, earlier);
      var before := After(s, earlier).value;
      StepRefines(before, last);
      var now := Next(before, last);
      if now.log != before.log {
        assert now.log == before.log + [now.log[|before.log|]];
        ReplayStep(s.rows, before.log, now.log[|before.log|]);
      }
    }
  }
}

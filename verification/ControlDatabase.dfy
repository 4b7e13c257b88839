/** The source registry over one connection, statement by statement. */
module ControlDatabase {
  import opened Options
  import opened Results
  import opened Scopes
  import opened StoredCells
  import opened SqliteDatabase
  import KeyedTable
  import opened ControlStore
  import opened Registry

  class Store {
    const connection: Connection<Table>
    const file: File<Table>

    constructor (file: File<Table>)
      ensures this.file == file && Valid() && fresh(connection) && !connection.closed
    {
      this.file := file;
      connection := new Connection(file);
    }

    /** Between two calls no transaction of this connection is open. */
    ghost predicate Valid()
      reads this, connection
    {
      connection.file == file && connection.Quiet()
    }

    /** Ends the transaction of one write. */
    method Conclude(rows: Table, refusal: Option<Failure>, faults: set<Statement>) returns (outcome: Outcome)
      requires connection.file == file && connection.InTransaction()
      modifies connection`transaction, file
      ensures Valid() && !file.locked
      ensures outcome == if refusal.Some? then Refused(refusal.value)
                         else if CommitStatement in faults then Refused(WriteFailed) else Done
      ensures file.content == if outcome.Done? then rows else old(file.content)
    {
      connection.transaction := Some(rows);
      var committed := connection.Finish(refusal.None?, faults);
      if refusal.Some? { return Refused(refusal.value); }
      return if committed then Done else Refused(WriteFailed);
    }

    /** Creates a registration.  Whatever the driver does, the call has the whole effect of one atomic
    registration or none, and the lock is given back on every path. */
    method RegisterSource(r: Registration, faults: set<Statement>) returns (outcome: Outcome)
      requires Valid()
      modifies connection`transaction, file
      ensures Valid() && file.locked == old(file.locked)
      ensures file.content == if outcome.Done? then Register(old(file.content), r).0 else old(file.content)
      ensures outcome == Register(old(file.content), r).1 || outcome == Refused(WriteFailed)
      ensures !r.Valid() ==> outcome == Refused(InvalidInput)
      ensures r.Valid() && (connection.closed || old(file.locked)) ==> outcome == Refused(WriteFailed)
      ensures !connection.closed && !old(file.locked) && faults == {} ==> outcome == Register(old(file.content), r).1
    {
      if !r.Valid() { return Refused(InvalidInput); }
      var begun := connection.Begin(faults);
      if !begun { return Refused(WriteFailed); }
      var rows := connection.transaction.value;
      var refusal := None;
      if ReadStatement in faults {
        refusal := Some(WriteFailed);
      } else if KeyedTable.Exists(rows, ToRowKey(r.id)) {
        refusal := Some(SourceConflict);
      } else if WriteStatement in faults {
        refusal := Some(WriteFailed);
      } else {
        rows := rows + [ToRow(r)];
      }
      outcome := Conclude(rows, refusal, faults);
    }

    /** Replaces the mutable fields of one registration, in place and all at once. */
    method UpdateSource(r: Registration, faults: set<Statement>) returns (outcome: Outcome)
      requires Valid()
      modifies connection`transaction, file
      ensures Valid() && file.locked == old(file.locked)
      ensures file.content == if outcome.Done? then Update(old(file.content), r).0 else old(file.content)
      ensures outcome == Update(old(file.content), r).1 || outcome == Refused(WriteFailed)
      ensures !r.Valid() ==> outcome == Refused(InvalidInput)
      ensures r.Valid() && (connection.closed || old(file.locked)) ==> outcome == Refused(WriteFailed)
      ensures !connection.closed && !old(file.locked) && faults == {} ==> outcome == Update(old(file.content), r).1
    {
      if !r.Valid() { return Refused(InvalidInput); }
      var begun := connection.Begin(faults);
      if !begun { return Refused(WriteFailed); }
      var rows := connection.transaction.value;
      var refusal := None;
      if WriteStatement in faults {
        refusal := Some(WriteFailed);
      } else if !KeyedTable.Exists(rows, ToRowKey(r.id)) {
        refusal := Some(SourceNotFound);
      } else {
        rows := KeyedTable.Overwritten(rows, ToRow(r));
      }
      outcome := Conclude(rows, refusal, faults);
    }

    /** Removes one registration with a single statement outside any explicit transaction. */
    method RemoveSource(k: LogicalKey, faults: set<Statement>) returns (outcome: Outcome)
      requires Valid()
      modifies file`content
      ensures file.content == if outcome.Removed? then Remove(old(file.content), k).0 else old(file.content)
      ensures outcome == if k.Valid() && !old(connection.CanWrite(faults, WriteStatement)) then Refused(WriteFailed)
                         else Remove(old(file.content), k).1
    {
      if !k.Valid() { return Refused(InvalidInput); }
      if !connection.CanWrite(faults, WriteStatement) { return Refused(WriteFailed); }
      outcome := Removed(KeyedTable.Exists(file.content, ToRowKey(k)));
      file.content := KeyedTable.Without(file.content, ToRowKey(k));
    }

    /** Lists one scope, row by row; the first row that cannot be read fails the call. */
    method ListSources(scope: Scope, faults: set<Statement>) returns (answer: Result<seq<Registration>, Failure>)
      requires Valid()
      ensures answer == if scope.Valid() && (connection.closed || ReadStatement in faults)
                        then Err(ReadFailed) else List(file.content, scope)
    {
      if !scope.Valid() { return Err(InvalidInput); }
      if connection.closed || ReadStatement in faults { return Err(ReadFailed); }
      var rows, found := file.content, [];
      assert rows[0..] == rows;
      ContinuedFromNone(ReadRows(rows, scope));
      for i := 0 to |rows|
        invariant ReadRows(rows, scope) == Continued(found, ReadRows(rows[i..], scope))
      {
        var row := rows[i];
        assert rows[i..][0] == row && rows[i..][1..] == rows[i + 1..];
        if row.id.scopeKey == Bind(ScopeKey(scope)) {
          var r := ToRegistration(row);
          if r.Err? { return Err(r.error); }
          if r.value.id.scope != scope { return Err(InvalidStoredData); }
          ContinuedOnce(found, r.value, ReadRows(rows[i + 1..], scope));
          found := found + [r.value];
        }
      }
      assert rows[|rows|..] == [] && found + [] == found;
      return Ok(found);
    }
  }

  function Continued(found: seq<Registration>, rest: Result<seq<Registration>, Failure>): Result<seq<Registration>, Failure> {
    if rest.Err? then rest else Ok(found + rest.value)
  }

  lemma ContinuedFromNone(rest: Result<seq<Registration>, Failure>)
    ensures Continued([], rest) == rest
  {
    if rest.Ok? { assert [] + rest.value == rest.value; }
  }

  lemma ContinuedOnce(found: seq<Registration>, r: Registration, rest: Result<seq<Registration>, Failure>)
    ensures Continued(found, Continued([r], rest)) == Continued(found + [r], rest)
  {
    if rest.Ok? { assert found + ([r] + rest.value) == found + [r] + rest.value; }
  }
}

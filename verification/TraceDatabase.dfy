/** The audit store over one connection, statement by statement. */
module TraceDatabase {
  import opened Options
  import opened Results
  import opened Utf16
  import opened Scopes
  import opened StoredCells
  import opened SqliteDatabase
  import opened TraceStore

  class Store {
    const connection: Connection<Table>
    const file: File<Table>

    constructor (file: File<Table>)
      ensures this.file == file && Valid() && fresh(connection) && !connection.closed
    {
      this.file := file;
      connection := new Connection(file);
    }

    /** Between two calls no transaction of this connection is open. */
    ghost predicate Valid()
      reads this, connection
    {
      connection.file == file && connection.Quiet()
    }

    /** The check and the insert of one write, inside the transaction. */
    method SelectThenInsert(r: Record, faults: set<Statement>) returns (failure: Option<Failure>)
      requires connection.file == file && connection.InTransaction() && r.Valid()
      modifies connection`transaction
      ensures connection.InTransaction()
      ensures failure.None? ==> (connection.transaction.value, Stored) == Put(old(connection.transaction.value), r)
      ensures failure.Some? ==>
        || Failed(failure.value) == Put(old(connection.transaction.value), r).1
        || (faults != {} && failure == Some(WriteFailed))
    {
      var rows := connection.transaction.value;
      if ReadStatement in faults { return Some(WriteFailed); }
      var existing := Select(rows, Bind(r.compilationId));
      if existing.Some? {
        var stored := ReadStored(existing.value);
        if stored.Err? { return Some(stored.error); }
        if Envelope(stored.value) != Envelope(r) { return Some(TraceConflict); }
        return None;
      }
      if WriteStatement in faults { return Some(WriteFailed); }
      connection.transaction := Some(rows + [ToRow(r)]);
      return None;
    }

    /** Stores one settled record.  Whatever the driver does, the call either has the whole effect of
    one atomic write or none; a closed handle, a lock held elsewhere and every driver fault end in a
    write failure, and the lock is given back on every path. */
    method PutTrace(r: Record, faults: set<Statement>) returns (outcome: Outcome)
      requires Valid()
      modifies connection`transaction, file
      ensures Valid() && file.locked == old(file.locked)
      ensures file.content == if outcome.Stored? then Put(old(file.content), r).0 else old(file.content)
      ensures outcome == Put(old(file.content), r).1 || outcome == Failed(WriteFailed)
      ensures !r.Valid() ==> outcome == Failed(InvalidInput)
      ensures r.Valid() && (connection.closed || old(file.locked)) ==> outcome == Failed(WriteFailed)
      ensures !connection.closed && !old(file.locked) && faults == {} ==> outcome == Put(old(file.content), r).1
    {
      if !r.Valid() { return Failed(InvalidInput); }
      var begun := connection.Begin(faults);
      if !begun { return Failed(WriteFailed); }
      var failure := SelectThenInsert(r, faults);
      var committed := connection.Finish(failure.None?, faults);
      if failure.Some? { return Failed(failure.value); }
      return if committed then Stored else Failed(WriteFailed);
    }

    /** Reads one record; invalid input is refused before the handle is touched. */
    method GetTrace(scope: Scope, id: Text, faults: set<Statement>) returns (answer: Result<Option<Record>, Failure>)
      requires Valid()
      ensures answer == if scope.Valid() && !IsBlank(id) && (connection.closed || ReadStatement in faults)
                        then Err(ReadFailed) else Get(file.content, scope, id)
    {
      if !scope.Valid() || IsBlank(id) { return Err(InvalidInput); }
      if connection.closed || ReadStatement in faults { return Err(ReadFailed); }
      var found := Select(file.content, Bind(id));
      if found.None? || found.value.scopeKey != TextColumn(ScopeKey(scope)) { return Ok(None); }
      var record := ReadStored(found.value);
      if record.Err? { return Err(record.error); }
      if record.value.scope != scope { return Err(InvalidStoredData); }
      return Ok(Some(record.value));
    }
  }
}

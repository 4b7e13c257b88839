/** A connection to a local database file: the immediate write lock, commit and rollback. */
module SqliteDatabase {
  import opened Options

  /** The file: its committed content, and whether some connection holds the write lock. */
  class File<T> {
    var content: T
    var locked: bool

    constructor (content: T)
      ensures this.content == content && !locked
    {
      this.content := content;
      locked := false;
    }
  }

  /** A statement the driver may fail for reasons of its own, such as a full disk. */
  datatype Statement = BeginStatement | ReadStatement | WriteStatement | CommitStatement

  /** One handle on a file.  `transaction` is the content as this connection sees it while it holds the
  write lock. */
  class Connection<T> {
    const file: File<T>
    var closed: bool
    var transaction: Option<T>

    constructor (file: File<T>)
      ensures this.file == file && !closed && Quiet()
    {
      this.file := file;
      closed := false;
      transaction := None;
    }

    /** No transaction of this connection is open. */
    ghost predicate Quiet()
      reads this
    {
      transaction.None?
    }

    ghost predicate InTransaction()
      reads this, file
    {
      transaction.Some? && file.locked
    }

    /** Whether a statement can run at all outside a transaction. */
    predicate CanWrite(faults: set<Statement>, s: Statement)
      reads this, file
    {
      !closed && !file.locked && s !in faults
    }

    method Begin(faults: set<Statement>) returns (ok: bool)
      requires Quiet()
      modifies this`transaction, file`locked
      ensures ok == old(CanWrite(faults, BeginStatement))
      ensures ok ==> InTransaction() && transaction == Some(file.content)
      ensures !ok ==> Quiet() && file.locked == old(file.locked)
    {
      ok := CanWrite(faults, BeginStatement);
      if ok {
        transaction := Some(file.content);
        file.locked := true;
      }
    }

    method Commit(faults: set<Statement>) returns (ok: bool)
      requires InTransaction()
      modifies this`transaction, file
      ensures ok == (CommitStatement !in faults)
      ensures ok ==> Quiet() && !file.locked && file.content == old(transaction.value)
      ensures !ok ==> InTransaction() && transaction == old(transaction) && file.content == old(file.content)
    {
      ok := CommitStatement !in faults;
      if ok {
        file.content := transaction.value;
        transaction := None;
        file.locked := false;
      }
    }

    method Rollback()
      requires InTransaction()
      modifies this`transaction, file`locked
      ensures Quiet() && !file.locked
    {
      transaction := None;
      file.locked := false;
    }

    /** Ends a transaction whose body succeeded or failed: the content is the body's when everything
    went well and untouched otherwise, and the lock is given back either way. */
    method Finish(bodySucceeded: bool, faults: set<Statement>) returns (committed: bool)
      requires InTransaction()
      modifies this`transaction, file
      ensures Quiet() && !file.locked
      ensures committed == (bodySucceeded && CommitStatement !in faults)
      ensures file.content == if committed then old(transaction.value) else old(file.content)
    {
      committed := false;
      if bodySucceeded { committed := Commit(faults); }
      if !committed { Rollback(); }
    }

    /** Closes the handle.  Only the first call can fail, when the driver does; the handle counts as closed
    either way, and nothing changes in the file. */
    method Close(driverFails: bool) returns (failed: bool)
      modifies this`closed
      ensures closed
      ensures failed == (driverFails && !old(closed))
    {
      if closed { return false; }
      closed := true;
      return driverFails;
    }
  }
}

/** One application database and its transactions.  SQLite is a flag, and each
    call on it may fail
    (`crates/krit-database/src/connection.rs`). */
module DatabaseConnection {
  import opened Wrappers

  datatype ErrorKind = ConnectionError | CatalogError | TransactionError | LimitError | InterruptedError | ConflictError

  datatype DatabaseMode = ReadOnly | ReadWrite
  datatype TransactionMode = Read | WriteMode
  datatype Completion = Committed | RolledBack | Interrupted
  datatype OperationKind = QueryOperation | ExecuteOperation

  /** How one foreign call went: it worked, or it failed, in which case SQLite
      may have unwound the transaction on its own. */
  datatype Call = Works | Fails(kind: ErrorKind, unwound: bool)

  /** Every failure the environment may inject into one operation. */
  datatype Faults = Faults(
    deadline: bool,               // the transaction or deadline bound is hit
    catalog: Option<ErrorKind>,   // an unknown statement or a refused parameter
    install: Option<ErrorKind>,   // the interrupt guard refuses
    statement: Call,              // BEGIN, the statement itself, or COMMIT
    verify: Option<ErrorKind>,    // the disk check, or the journal pragmas
    rollback: Call)               // ROLLBACK

  /** Whether a COMMIT on an open transaction reaches SQLite and works there. */
  predicate Publishes(lockLost: bool, faults: Faults) {
    !faults.deadline && !lockLost && faults.install.None? && faults.statement.Works?
  }

  /** Whether a statement that runs reports an interruption. */
  predicate Interrupts(kind: OperationKind, faults: Faults) {
    match faults.statement
    case Works => kind.ExecuteOperation? && faults.verify == Some(InterruptedError)
    case Fails(failure, _) => failure == InterruptedError
  }

  class Transaction {
    const mode: TransactionMode
    var operations: nat
    var outcome: Option<Completion>
    /** Whether SQLite unwound it under a statement that failed. */
    ghost var unwound: bool

    constructor (mode: TransactionMode)
      ensures this.mode == mode && operations == 0 && outcome == None && !unwound
    {
      this.mode := mode;
      operations := 0;
      outcome := None;
      unwound := false;
    }
  }

  class Database {
    const mode: DatabaseMode
    const maxOperations: nat
    /** Whether the connection is outside any transaction. */
    var autocommit: bool
    var poisoned: bool
    /** A thread panicked while it held the connection: every later lock fails. */
    var lockLost: bool
    /** How many COMMITs SQLite has published. */
    ghost var published: nat
    /** How many statements ran to the end with no transaction around them, so
        that a write among them was durable at once. */
    ghost var strays: nat

    constructor (mode: DatabaseMode, maxOperations: nat)
      ensures autocommit && !poisoned && !lockLost && published == 0 && strays == 0
      ensures this.mode == mode && this.maxOperations == maxOperations
    {
      this.mode, this.maxOperations := mode, maxOperations;
      autocommit, poisoned, lockLost := true, false, false;
      published, strays := 0, 0;
    }

    /** Outside any transaction, or refusing every later one. */
    predicate Settled()
      reads this
    {
      autocommit || poisoned || lockLost
    }

    /** Nothing that blocks later transactions is ever taken back. */
    twostate predicate StaysBlocked()
      reads this
    {
      (old(poisoned) ==> poisoned) && (old(lockLost) ==> lockLost) && old(published) <= published
    }

    /** The only step of the environment on the connection itself. */
    method LoseLock()
      modifies this`lockLost
      ensures lockLost
    {
      lockLost := true;
    }

    method Begin(mode: TransactionMode, faults: Faults) returns (begun: Result<Transaction, ErrorKind>)
      modifies this`autocommit, this`poisoned
      ensures begun.Ok? <==>
              && !(mode == WriteMode && this.mode == ReadOnly)
              && !old(poisoned) && !faults.deadline && !lockLost && old(autocommit)
              && faults.install.None? && faults.statement.Works?
      ensures begun.Ok? ==>
                && fresh(begun.value) && begun.value.mode == mode && begun.value.outcome.None?
                && begun.value.operations == 0 && !begun.value.unwound && !autocommit && !poisoned
      ensures begun.Err? ==> autocommit == old(autocommit)
      ensures begun.Err? && !old(poisoned) ==>
                (poisoned <==>
                   !(mode == WriteMode && this.mode == ReadOnly) && !faults.deadline && !lockLost && !old(autocommit))
      ensures old(poisoned) ==> poisoned
    {
      if mode == WriteMode && this.mode == ReadOnly {
        return Err(TransactionError);
      }
      if poisoned {
        return Err(ConnectionError);
      }
      if faults.deadline {
        return Err(LimitError);
      }
      if lockLost {
        return Err(ConnectionError);
      }
      if !autocommit {
        poisoned := true;
        return Err(TransactionError);
      }
      if faults.install.Some? {
        return Err(faults.install.value);
      }
      if faults.statement.Fails? {
        return Err(faults.statement.kind);
      }
      autocommit := false;
      var transaction := new Transaction(mode);
      return Ok(transaction);
    }

    /** `rollback_now`: leaves the connection idle, or blocks it. */
    method RollbackNow(faults: Faults) returns (error: Option<ErrorKind>)
      modifies this`autocommit, this`poisoned
      ensures Settled() && (old(poisoned) ==> poisoned)
      ensures error.None? ==> autocommit && poisoned == old(poisoned)
      ensures error.None? <==> !lockLost && (old(autocommit) || faults.rollback.Works?)
    {
      if lockLost {
        return Some(ConnectionError);
      }
      if autocommit {
        return None;
      }
      if faults.rollback.Fails? {
        poisoned := true;
        autocommit := faults.rollback.unwound;
        return Some(faults.rollback.kind);
      }
      autocommit := true;
      return None;
    }

    /** `prepare_operation` and `bind_parameters`: the checks before a statement. */
    method Prepare(transaction: Transaction, faults: Faults) returns (error: Option<ErrorKind>)
      modifies transaction`operations
      ensures error.None? <==>
              && !poisoned && transaction.outcome.None? && !faults.deadline
              && old(transaction.operations) < maxOperations && faults.catalog.None?
      ensures old(transaction.operations) <= transaction.operations <= old(transaction.operations) + 1
      ensures old(transaction.operations) <= maxOperations ==> transaction.operations <= maxOperations
    {
      if poisoned {
        return Some(ConnectionError);
      }
      if transaction.outcome.Some? {
        return Some(TransactionError);
      }
      if faults.deadline {
        return Some(LimitError);
      }
      if transaction.operations + 1 > maxOperations {
        return Some(LimitError);
      }
      transaction.operations := transaction.operations + 1;
      return faults.catalog;
    }

    /** Whether an operation gets as far as running its statement. */
    predicate RunsStatement(kind: OperationKind, transaction: Transaction, faults: Faults)
      reads this, transaction
    {
      && !(kind.ExecuteOperation? && transaction.mode != WriteMode)
      && !poisoned && transaction.outcome.None? && !faults.deadline
      && transaction.operations < maxOperations && faults.catalog.None?
      && !lockLost && faults.install.None?
    }

    /** Whether `transaction`, while it is open, is the one SQLite is in. */
    ghost predicate Tracks(transaction: Transaction)
      reads this, transaction
    {
      autocommit <==> transaction.unwound
    }

    /** `query` and `execute`: an interrupted statement is unwound at once and
        completes the transaction; any other failure leaves it open, a disk
        budget overrun included.  A statement runs outside its transaction
        exactly when the connection has already lost it. */
    method Operate(kind: OperationKind, transaction: Transaction, faults: Faults) returns (error: Option<ErrorKind>)
      modifies this`autocommit, this`poisoned, this`strays, transaction
      ensures StaysBlocked()
      ensures transaction.operations <= old(transaction.operations) + 1
      ensures transaction.outcome ==
              if old(RunsStatement(kind, transaction, faults)) && Interrupts(kind, faults)
              then Some(Interrupted) else old(transaction.outcome)
      ensures transaction.outcome != old(transaction.outcome) ==> old(transaction.outcome).None? && Settled()
      ensures error.None? ==> transaction.outcome.None? && autocommit == old(autocommit)
      ensures transaction.outcome == old(transaction.outcome) ==> poisoned == old(poisoned)
      ensures error.None? <==>
              && old(RunsStatement(kind, transaction, faults)) && faults.statement.Works?
              && (kind.ExecuteOperation? ==> faults.verify.None?)
      ensures strays == old(strays) + (if old(RunsStatement(kind, transaction, faults)) && faults.statement.Works?
                                          && old(autocommit) then 1 else 0)
      ensures transaction.unwound <==>
              || old(transaction.unwound)
              || (old(RunsStatement(kind, transaction, faults)) && faults.statement.Fails? && faults.statement.unwound)
      ensures old(Tracks(transaction)) && transaction.outcome.None? ==> Tracks(transaction)
    {
      if kind.ExecuteOperation? && transaction.mode != WriteMode {
        return Some(TransactionError);
      }
      error := Prepare(transaction, faults);
      if error.Some? {
        return;
      }
      if lockLost {
        return Some(ConnectionError);
      }
      if faults.install.Some? {
        return faults.install;
      }
      match faults.statement {
        case Works =>
          strays := if autocommit then strays + 1 else strays;
          error := if kind.ExecuteOperation? then faults.verify else None;
        case Fails(failure, unwound) =>
          autocommit := autocommit || unwound;
          transaction.unwound := transaction.unwound || unwound;
          error := Some(failure);
      }
      if error == Some(InterruptedError) {
        var undo := RollbackNow(faults);
        transaction.outcome := Some(Interrupted);
        if undo.Some? {
          return undo;
        }
      }
    }

    /** `commit`: a transaction that completes here is out of SQLite or blocks
        the database.  The outcome can be `RolledBack` although `published` went
        up, when only the verification failed.  A COMMIT may work here even if
        SQLite has already left the transaction, where it would be refused: the
        model has runs that SQLite does not. */
    method Commit(transaction: Transaction, faults: Faults) returns (error: Option<ErrorKind>)
      modifies this`autocommit, this`poisoned, this`published, transaction`outcome
      ensures StaysBlocked()
      ensures error.None? <==>
              && old(transaction.outcome).None? && !faults.deadline && !lockLost && faults.install.None?
              && faults.statement.Works? && faults.verify.None?
      ensures error.None? <==> old(transaction.outcome).None? && transaction.outcome == Some(Committed)
      ensures error.None? ==> autocommit
      ensures published ==
              old(published) + (if old(transaction.outcome).None? && Publishes(lockLost, faults) then 1 else 0)
      ensures published > old(published) ==> transaction.outcome.Some?
      ensures error.Some? && published > old(published) ==> transaction.outcome == Some(RolledBack)
      ensures old(transaction.outcome).None? && transaction.outcome.Some? ==> Settled()
      ensures old(transaction.outcome).None? && transaction.outcome.None? ==>
                autocommit == old(autocommit) && poisoned == old(poisoned) && published == old(published)
      ensures old(transaction.outcome).Some? ==> unchanged(this) && unchanged(transaction)
    {
      if transaction.outcome.Some? {
        return Some(TransactionError);
      }
      if faults.deadline {
        return Some(LimitError);
      }
      if lockLost {
        return Some(ConnectionError);
      }
      if faults.install.Some? {
        return faults.install;
      }
      match faults.statement {
        case Works =>
          autocommit := true;
          published := published + 1;
          error := faults.verify;
        case Fails(failure, unwound) =>
          autocommit := autocommit || unwound;
          if faults.rollback.Fails? {
            poisoned := true;
            error := Some(faults.rollback.kind);
          } else {
            autocommit := true;
            error := Some(failure);
          }
      }
      transaction.outcome := Some(if error.None? then Committed else RolledBack);
    }

    /** `rollback`. */
    method Rollback(transaction: Transaction, faults: Faults) returns (error: Option<ErrorKind>)
      modifies this`autocommit, this`poisoned, transaction`outcome
      ensures StaysBlocked() && transaction.outcome.Some?
      ensures old(transaction.outcome).None? ==> Settled() && transaction.outcome == Some(RolledBack)
      ensures old(transaction.outcome).None? ==>
                (error.None? <==> !lockLost && (old(autocommit) || faults.rollback.Works?))
      ensures old(transaction.outcome).None? && error.None? ==> autocommit
      ensures old(transaction.outcome).Some? ==> unchanged(this)
    {
      if transaction.outcome == Some(Interrupted) {
        transaction.outcome := Some(RolledBack);
        return None;
      }
      if transaction.outcome.Some? {
        return Some(TransactionError);
      }
      error := RollbackNow(faults);
      transaction.outcome := Some(RolledBack);
    }

    /** `abandon`: cleanup of a transaction nobody completed. */
    method Abandon(transaction: Transaction, faults: Faults) returns (error: Option<ErrorKind>)
      modifies this`autocommit, this`poisoned, transaction`outcome
      ensures StaysBlocked() && transaction.outcome.Some?
      ensures old(transaction.outcome).None? ==> Settled()
      ensures old(transaction.outcome).Some? ==> unchanged(this) && unchanged(transaction) && error.None?
    {
      if transaction.outcome.Some? {
        return None;
      }
      error := Rollback(transaction, faults);
    }
  }

  const NO_FAULTS := Faults(false, None, None, Works, None, Works)

  /** A rollback can report success for a transaction one of whose writes is
      already durable: the statement before that write failed and unwound it. */
  method StrayWriteOutlivesRollback(kind: ErrorKind)
    returns (database: Database, transaction: Transaction, error: Option<ErrorKind>)
    requires kind != InterruptedError
    ensures fresh(database) && fresh(transaction)
    ensures database.strays == 1 && error.None? && transaction.outcome == Some(RolledBack)
  {
    database := new Database(ReadWrite, 2);
    var begun := database.Begin(WriteMode, NO_FAULTS);
    transaction := begun.value;
    error := database.Operate(ExecuteOperation, transaction, NO_FAULTS.(statement := Fails(kind, true)));
    error := database.Operate(ExecuteOperation, transaction, NO_FAULTS);
    error := database.Rollback(transaction, NO_FAULTS);
  }
}

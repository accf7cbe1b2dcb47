/** The transactions of one invocation: bookkeeping, cleanup on every exit, and
    what any sequence of steps leaves behind
    (`crates/krit-runtime/src/database.rs`). */
module DatabaseInvocation {
  import opened Wrappers
  import opened DatabaseConnection

  datatype Live = Live(database: Database, transaction: Transaction, slot: nat)

  /** One step an invocation or its environment can take. */
  datatype Command =
    | Begin(name: string, mode: TransactionMode, slot: nat, faults: Faults)
    | Operate(kind: OperationKind, slot: nat, faults: Faults)
    | Commit(slot: nat, faults: Faults, dropFaults: Faults)
    | Rollback(slot: nat, faults: Faults)
    | DropHandle(slot: nat, faults: Faults)
    | AbandonAll(faults: Faults)
    | LoseLock(name: string)

  /** Whether a database starts a transaction. */
  predicate Begins(database: Database, mode: TransactionMode, faults: Faults)
    reads database
  {
    && !(mode == WriteMode && database.mode == ReadOnly)
    && !database.poisoned && !faults.deadline && !database.lockLost && database.autocommit
    && faults.install.None? && faults.statement.Works?
  }

  /** A statement that fails, takes the transaction with it and is not an
      interruption, so that the transaction stays open on the guest's side. */
  predicate Unwinds(command: Command) {
    && command.Operate? && command.faults.statement.Fails? && command.faults.statement.unwound
    && command.faults.statement.kind != InterruptedError
  }

  class InvocationDatabases {
    const databases: map<string, Database>
    const maxTransactions: nat
    var open: seq<Live>
    var begun: nat
    var publishedWriteCommit: bool
    /** Write transactions whose commit SQLite published. */
    ghost var writeCommits: nat
    /** Those whose commit also passed its disk check. */
    ghost var verifiedWriteCommits: nat

    /** What every step keeps: `open` has one element or none, whose transaction
        has no outcome yet and is the one SQLite is in, unless a failed statement
        unwound it; no more begun than configured; every other database idle or
        blocked; and an exact record of verified writes. */
    ghost predicate Valid()
      reads this, databases.Values, set live | live in open :: live.transaction
    {
      && |open| <= 1
      && begun <= maxTransactions
      && (forall live :: live in open ==> live.database in databases.Values && live.transaction.outcome.None?)
      && (forall live :: live in open ==> live.database.Tracks(live.transaction))
      && (forall d :: d in databases.Values ==> d.Settled() || (|open| == 1 && open[0].database == d))
      && (publishedWriteCommit <==> verifiedWriteCommits > 0)
      && verifiedWriteCommits <= writeCommits
    }

    /** No open transaction was unwound under one of its statements. */
    ghost predicate Intact()
      reads this, set live | live in open :: live.transaction
    {
      forall live :: live in open ==> !live.transaction.unwound
    }

    twostate predicate NoStrays()
      reads databases.Values
    {
      forall d :: d in databases.Values ==> d.strays == old(d.strays)
    }

    /** What may change while this invocation runs. */
    ghost function Touched(): set<object>
      reads this
    {
      (set d | d in databases.Values :: d as object) + (set live | live in open :: live.transaction as object) + {this}
    }

    constructor (databases: map<string, Database>, maxTransactions: nat)
      requires forall d :: d in databases.Values ==> d.Settled()
      ensures Valid() && open == [] && begun == 0 && !publishedWriteCommit && writeCommits == 0
      ensures this.databases == databases && this.maxTransactions == maxTransactions
    {
      this.databases, this.maxTransactions := databases, maxTransactions;
      open, begun, publishedWriteCommit := [], 0, false;
      writeCommits, verifiedWriteCommits := 0, 0;
    }

    twostate predicate StaysBlocked()
      reads databases.Values
    {
      forall d :: d in databases.Values ==> d.StaysBlocked()
    }

    method BeginTransaction(name: string, mode: TransactionMode, slot: nat, faults: Faults)
      returns (error: Option<ErrorKind>)
      requires Valid()
      modifies this`open, this`begun, databases.Values
      ensures Valid() && StaysBlocked() && NoStrays() && (old(Intact()) ==> Intact())
      ensures error.None? ==>
                && old(open) == [] && |open| == 1 && open[0].slot == slot && fresh(open[0].transaction)
                && begun == old(begun) + 1 && name in databases
      ensures error.Some? ==> open == old(open) && begun == old(begun)
      ensures error.None? ==> open[0].database == databases[name] && open[0].transaction.mode == mode
      ensures error.None? <==>
              && old(open) == [] && old(begun) < maxTransactions && name in databases
              && old(Begins(databases[name], mode, faults))
      ensures name in databases ==> databases[name].lockLost == old(databases[name].lockLost)
    {
      if open != [] {
        return Some(TransactionError);
      }
      var next := begun + 1;
      if next > maxTransactions {
        return Some(LimitError);
      }
      if name !in databases {
        return Some(CatalogError);
      }
      var database := databases[name];
      var started := database.Begin(mode, faults);
      if started.Err? {
        return Some(started.error);
      }
      begun := next;
      open := open + [Live(database, started.value, slot)];
      return None;
    }

    /** `live_mut`: the open transaction behind a handle. */
    function Find(slot: nat): (live: Option<Live>)
      reads this
      ensures live.Some? ==> live.value in open && live.value.slot == slot
      ensures live.None? ==> forall l :: l in open ==> l.slot != slot
    {
      FindIn(open, slot)
    }

    static function FindIn(lives: seq<Live>, slot: nat): (live: Option<Live>)
      ensures live.Some? ==> live.value in lives && live.value.slot == slot
      ensures live.None? ==> forall l :: l in lives ==> l.slot != slot
    {
      if lives == [] then None
      else if lives[0].slot == slot then Some(lives[0])
      else FindIn(lives[1..], slot)
    }

    /** `Drop for LiveTransaction`: undoes whatever nobody completed. */
    static method DropLive(live: Live, faults: Faults)
      modifies live.database`autocommit, live.database`poisoned, live.transaction`outcome
      ensures live.database.StaysBlocked() && live.transaction.outcome.Some?
      ensures old(live.transaction.outcome).None? ==> live.database.Settled()
      ensures old(live.transaction.outcome).Some? ==> unchanged(live.database) && unchanged(live.transaction)
    {
      if live.transaction.outcome.Some? {
        return;
      }
      var ignored := live.database.Abandon(live.transaction, faults);
    }

    /** `query` and `execute`, with `retire_completed` after them. */
    method OperateOn(kind: OperationKind, slot: nat, faults: Faults) returns (error: Option<ErrorKind>)
      requires Valid()
      modifies Touched()
      ensures Valid() && StaysBlocked() && begun == old(begun)
      ensures open == old(open) || open == []
      ensures error.None? ==> open == old(open) && old(open) != []
      ensures publishedWriteCommit == old(publishedWriteCommit)
      ensures old(Find(slot)).None? ==> NoStrays() && open == old(open) && error.Some?
      ensures old(Find(slot)).Some? ==>
                var live := old(Find(slot)).value;
                && (forall d :: d in databases.Values && d != live.database ==> d.strays == old(d.strays))
                && live.database.strays == old(live.database.strays) +
                     (if old(live.database.RunsStatement(kind, live.transaction, faults))
                         && faults.statement.Works? && old(live.transaction.unwound) then 1 else 0)
      ensures old(Intact()) && !Unwinds(Operate(kind, slot, faults)) ==> Intact()
    {
      var live := Find(slot);
      if live.None? {
        return Some(TransactionError);
      }
      assert open == [live.value];
      error := live.value.database.Operate(kind, live.value.transaction, faults);
      if live.value.transaction.outcome.Some? {
        open := [];
        DropLive(live.value, faults);
      }
    }

    /** `commit`: the live transaction is retired whatever happened, and its
        destructor undoes a commit that failed before it reached SQLite. */
    method CommitSlot(slot: nat, faults: Faults, dropFaults: Faults) returns (error: Option<ErrorKind>)
      requires Valid()
      modifies Touched()
      ensures Valid() && StaysBlocked() && begun == old(begun)
      ensures NoStrays() && (old(Intact()) ==> Intact())
      ensures old(Find(slot)).None? ==>
                open == old(open) && error.Some? && publishedWriteCommit == old(publishedWriteCommit)
      ensures old(Find(slot)).Some? ==> open == []
      ensures old(Find(slot)).Some? ==>
                var live := old(Find(slot)).value;
                var write := live.transaction.mode == WriteMode && Publishes(old(live.database.lockLost), faults);
                && writeCommits == old(writeCommits) + (if write then 1 else 0)
                && (publishedWriteCommit <==> old(publishedWriteCommit) || (write && faults.verify.None?))
    {
      var live := Find(slot);
      if live.None? {
        return Some(TransactionError);
      }
      assert open == [live.value];
      error := CommitLive(live.value, faults);
      open := [];
      DropLive(live.value, dropFaults);
    }

    /** The commit itself and what is recorded of it. */
    method CommitLive(live: Live, faults: Faults) returns (error: Option<ErrorKind>)
      requires live.transaction.outcome.None?
      requires (publishedWriteCommit <==> verifiedWriteCommits > 0) && verifiedWriteCommits <= writeCommits
      modifies this`publishedWriteCommit, this`writeCommits, this`verifiedWriteCommits
      modifies live.database`autocommit, live.database`poisoned, live.database`published, live.transaction`outcome
      ensures live.database.StaysBlocked() && (live.transaction.outcome.Some? ==> live.database.Settled())
      ensures (publishedWriteCommit <==> verifiedWriteCommits > 0) && verifiedWriteCommits <= writeCommits
      ensures var write := live.transaction.mode == WriteMode && Publishes(live.database.lockLost, faults);
              && writeCommits == old(writeCommits) + (if write then 1 else 0)
              && (publishedWriteCommit <==> old(publishedWriteCommit) || (write && faults.verify.None?))
    {
      var database, transaction := live.database, live.transaction;
      var write := transaction.mode == WriteMode;
      ghost var before := database.published;
      error := database.Commit(transaction, faults);
      if error.None? && write {
        publishedWriteCommit := true;
        verifiedWriteCommits := verifiedWriteCommits + 1;
      }
      if write && database.published > before {
        writeCommits := writeCommits + 1;
      }
    }

    method RollbackSlot(slot: nat, faults: Faults) returns (error: Option<ErrorKind>)
      requires Valid()
      modifies Touched()
      ensures Valid() && StaysBlocked() && begun == old(begun)
      ensures NoStrays() && (old(Intact()) ==> Intact())
      ensures old(Find(slot)).None? ==> open == old(open) && error.Some?
      ensures old(Find(slot)).Some? ==> open == []
      ensures publishedWriteCommit == old(publishedWriteCommit)
    {
      var live := Find(slot);
      if live.None? {
        return Some(TransactionError);
      }
      assert open == [live.value];
      error := live.value.database.Rollback(live.value.transaction, faults);
      open := [];
      DropLive(live.value, faults);
    }

    /** `abandon_slot`: the guest dropped its handle. */
    method AbandonSlot(slot: nat, faults: Faults) returns (error: Option<ErrorKind>)
      requires Valid()
      modifies Touched()
      ensures Valid() && StaysBlocked() && begun == old(begun)
      ensures NoStrays() && (old(Intact()) ==> Intact())
      ensures old(Find(slot)).None? ==> open == old(open) && error.None?
      ensures old(Find(slot)).Some? ==> open == []
      ensures publishedWriteCommit == old(publishedWriteCommit)
    {
      var live := Find(slot);
      if live.None? {
        return None;
      }
      assert open == [live.value];
      open := [];
      error := live.value.database.Abandon(live.value.transaction, faults);
      DropLive(live.value, faults);
    }

    /** `abandon_all`: every exit of the invocation.  Afterwards no database is
        left inside a transaction unless it refuses all later ones. */
    method AbandonEvery(faults: Faults) returns (error: Option<ErrorKind>)
      requires Valid()
      modifies Touched()
      ensures Valid() && StaysBlocked() && begun == old(begun) && open == [] && NoStrays()
      ensures forall d :: d in databases.Values ==> d.Settled()
      ensures publishedWriteCommit == old(publishedWriteCommit)
    {
      error := None;
      if open != [] {
        var live := open[0];
        assert open == [live];
        open := [];
        error := live.database.Abandon(live.transaction, faults);
        DropLive(live, faults);
      }
    }

    /** A step on transactions that are already open. */
    method StepOpen(command: Command)
      requires Valid() && !command.Begin? && !command.LoseLock?
      modifies Touched()
      ensures Valid() && StaysBlocked() && begun == old(begun) && (open == old(open) || open == [])
      ensures old(publishedWriteCommit) ==> publishedWriteCommit
      ensures old(Intact()) ==> NoStrays() && (!Unwinds(command) ==> Intact())
    {
      var error: Option<ErrorKind>;
      match command {
        case Operate(kind, slot, faults) => error := OperateOn(kind, slot, faults);
        case Commit(slot, faults, dropFaults) => error := CommitSlot(slot, faults, dropFaults);
        case Rollback(slot, faults) => error := RollbackSlot(slot, faults);
        case DropHandle(slot, faults) => error := AbandonSlot(slot, faults);
        case AbandonAll(faults) => error := AbandonEvery(faults);
      }
    }

    /** A thread of the environment dies while it holds a connection. */
    method LoseLockOf(name: string)
      requires Valid()
      modifies databases.Values
      ensures Valid() && StaysBlocked() && NoStrays() && (old(Intact()) ==> Intact())
      ensures name in databases ==> databases[name].lockLost
    {
      if name in databases {
        assert databases[name] in databases.Values;
        databases[name].LoseLock();
      }
    }

    method Step(command: Command)
      requires Valid()
      modifies Touched()
      ensures Valid() && StaysBlocked() && fresh(Touched() - old(Touched()))
      ensures old(begun) <= begun && (old(publishedWriteCommit) ==> publishedWriteCommit)
      ensures old(Intact()) ==> NoStrays() && (!Unwinds(command) ==> Intact())
    {
      match command {
        case Begin(name, mode, slot, faults) =>
          var error := BeginTransaction(name, mode, slot, faults);
        case LoseLock(name) => LoseLockOf(name);
        case _ => StepOpen(command);
      }
    }

    /** Any commands, each with its own faults, and then the exit: afterwards
        nothing is open, no more transactions were begun than configured, every
        database is idle or blocked, and what was blocked still is.  Unless a
        statement unwinds its transaction, no operation of the run takes place
        outside one. */
    method Run(commands: seq<Command>, exit: Faults)
      requires Valid()
      modifies Touched()
      ensures Valid() && StaysBlocked() && open == [] && begun <= maxTransactions
      ensures forall d :: d in databases.Values ==> d.Settled()
      ensures old(publishedWriteCommit) ==> publishedWriteCommit
      ensures old(Intact()) && (forall i :: 0 <= i < |commands| ==> !Unwinds(commands[i])) ==> NoStrays()
    {
      ghost var whole := Intact() && forall i :: 0 <= i < |commands| ==> !Unwinds(commands[i]);
      for i := 0 to |commands|
        invariant Valid() && StaysBlocked() && fresh(Touched() - old(Touched()))
        invariant old(publishedWriteCommit) ==> publishedWriteCommit
        invariant whole ==> Intact() && NoStrays()
      {
        Step(commands[i]);
      }
      var error := AbandonEvery(exit);
    }
  }

  /** The flag does not say every published write: a commit that SQLite
      publishes and whose disk check then fails leaves it unset. */
  method PublishedButUnrecorded() returns (database: Database, invocation: InvocationDatabases)
    ensures fresh(database) && fresh(invocation) && invocation.Valid()
    ensures invocation.writeCommits == 1 && !invocation.publishedWriteCommit
  {
    database := new Database(ReadWrite, 1);
    invocation := new InvocationDatabases(map["db" := database], 1);
    var begun := invocation.BeginTransaction("db", WriteMode, 0, NO_FAULTS);
    var commit := invocation.CommitSlot(0, NO_FAULTS.(verify := Some(LimitError)), NO_FAULTS);
  }

  /** A blocked database refuses every later transaction. */
  method BlockedRefuses(invocation: InvocationDatabases, name: string, mode: TransactionMode, slot: nat, faults: Faults)
    returns (error: Option<ErrorKind>)
    requires invocation.Valid() && name in invocation.databases
    requires invocation.databases[name].poisoned || invocation.databases[name].lockLost
    modifies invocation.Touched()
    ensures error.Some? && invocation.Valid() && invocation.open == old(invocation.open)
    ensures invocation.begun == old(invocation.begun)
  {
    error := invocation.BeginTransaction(name, mode, slot, faults);
  }
}

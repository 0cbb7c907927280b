/**
 * `UnitOfWork`: one database context, a lazily filled registry of repositories
 * keyed by entity type, memoised per-type properties, the save operations, a
 * transaction slot, and the dispose pattern.
 */
module UnitOfWork {
  import opened Wrappers
  import opened Entities
  import opened Store

  /** A `GenericRepository<T>` the unit of work created for one entity type over its context. */
  class RepositoryHandle {
    const entityType: EntityType
    const context: DbContext

    constructor (entityType: EntityType, context: DbContext)
      ensures this.entityType == entityType && this.context == context
    {
      this.entityType := entityType;
      this.context := context;
    }
  }

  /** What the unit of work did, in order. */
  datatype UowEvent = Began | Committed | RolledBack | Saved(result: Result<int>) | DisposedContext

  class UnitOfWork {
    const context: DbContext
    /** `_repositories`: the `Type -> repository` dictionary. */
    var repositories: map<EntityType, RepositoryHandle>
    /** The fourteen `_xRepository` backing fields, one per entity type, null while absent. */
    var backing: map<EntityType, RepositoryHandle>
    /** `_transaction`. */
    var transaction: Option<Transaction>
    var disposed: bool
    ghost var log: seq<UowEvent>

    /** The objects the unit of work's invariant depends on. */
    ghost function Repr(): set<object>
      reads this
    {
      {this, context, context.students, context.schools, context.todos}
      + (if transaction.Some? then {transaction.value} else {})
    }

    ghost predicate Valid()
      reads this, Repr()
    {
      context.Valid() && Wiring()
    }

    /**
     * The registry and the transaction slot agree with the context: until disposal
     * the slot holds exactly the connection's current transaction. It reads no
     * table and not the log, so saving leaves it as it was.
     */
    ghost predicate Wiring()
      reads this`repositories, this`backing, this`transaction, this`disposed, context`inTransaction,
        if transaction.Some? then {transaction.value} else {}
    {
      (forall t :: t in backing ==> t in repositories && backing[t] == repositories[t])
      && (forall t :: t in repositories ==> repositories[t].entityType == t && repositories[t].context == context)
      && (transaction.Some? ==> transaction.value.ctx == context && transaction.value.Valid())
      && (!disposed && transaction.Some? ==> transaction.value.state == Open && !transaction.value.disposed)
      && (!disposed ==> (context.inTransaction <==> transaction.Some?))
    }

    constructor (context: DbContext)
      requires context.Valid() && !context.inTransaction
      ensures Valid() && this.context == context
      ensures repositories == map[] && backing == map[] && transaction.None? && !disposed && log == []
    {
      this.context := context;
      repositories := map[];
      backing := map[];
      transaction := None;
      disposed := false;
      log := [];
    }

    /** `Repository<T>()`: the registered repository, or a new one registered under its type. */
    method Repository(t: EntityType) returns (r: RepositoryHandle)
      requires Valid()
      modifies this`repositories
      ensures Valid()
      ensures t in old(repositories) ==> r == old(repositories)[t] && repositories == old(repositories)
      ensures t !in old(repositories) ==> fresh(r) && repositories == old(repositories)[t := r]
      ensures r.entityType == t && r.context == context && t in repositories && repositories[t] == r
    {
      if t in repositories {
        return repositories[t];
      }
      r := new RepositoryHandle(t, context);
      repositories := repositories[t := r];
    }

    /**
     * A named repository property (`ToDoRepository`, `StudentRepository`, ...):
     * `_field ??= Repository<T>()`, so it is the instance the registry holds.
     */
    method Property(t: EntityType) returns (r: RepositoryHandle)
      requires Valid()
      modifies this`repositories, this`backing
      ensures Valid()
      ensures t in repositories && r == repositories[t] && backing == old(backing)[t := r]
      ensures t in old(repositories) ==> r == old(repositories)[t] && repositories == old(repositories)
      ensures t !in old(repositories) ==> fresh(r) && repositories == old(repositories)[t := r]
    {
      if t in backing {
        return backing[t];
      }
      r := Repository(t);
      backing := backing[t := r];
    }

    method StudentRepository() returns (r: RepositoryHandle)
      requires Valid()
      modifies this`repositories, this`backing
      ensures Valid()
      ensures StudentType in repositories && r == repositories[StudentType] && r.entityType == StudentType
      ensures backing == old(backing)[StudentType := r]
      ensures StudentType in old(repositories) ==> r == old(repositories)[StudentType] && repositories == old(repositories)
      ensures StudentType !in old(repositories) ==> fresh(r) && repositories == old(repositories)[StudentType := r]
    {
      r := Property(StudentType);
    }

    /** `SaveChanges()`: the context's save and its count of rows written. */
    method SaveChanges() returns (r: Result<int>)
      requires Valid() && !disposed
      modifies context.students, context.schools, context.todos, this`log
      ensures Valid()
      ensures (r, context.State()) == SaveAll(old(context.State()))
      ensures log == old(log) + [Saved(r)]
    {
      r := context.SaveChanges();
      log := log + [Saved(r)];
    }

    /** `SaveChangesAsync()`. */
    method SaveChangesAsync() returns (r: Result<int>)
      requires Valid() && !disposed
      modifies context.students, context.schools, context.todos, this`log
      ensures Valid()
      ensures (r, context.State()) == SaveAll(old(context.State()))
      ensures log == old(log) + [Saved(r)]
    {
      r := SaveChanges();
    }

    /** `SaveChangesAsync(cancellationToken)`; the token is passed on and never cancels here. */
    method SaveChangesAsyncWithToken(cancellationToken: int) returns (r: Result<int>)
      requires Valid() && !disposed
      modifies context.students, context.schools, context.todos, this`log
      ensures Valid()
      ensures (r, context.State()) == SaveAll(old(context.State()))
      ensures log == old(log) + [Saved(r)]
    {
      r := SaveChanges();
    }

    /**
     * `_transaction = await _context.Database.BeginTransactionAsync()`: with the slot
     * empty a new transaction takes it. With a transaction still in the slot the
     * connection refuses, the assignment does not happen, and the slot keeps the
     * old transaction, still open.
     */
    method BeginTransactionAsync() returns (r: Result<()>)
      requires Valid() && !disposed
      modifies this`transaction, this`log, context`inTransaction
      ensures Valid() && transaction.Some?
      ensures old(transaction).Some? <==> r.Err?
      ensures old(transaction).Some? ==>
                r == Err(InvalidOperation(TransactionAlreadyStarted))
                && transaction == old(transaction) && unchanged(old(transaction).value) && log == old(log)
      ensures old(transaction).None? ==>
                fresh(transaction.value) && transaction.value.snapshot == context.Rows()
                && transaction.value.state == Open && log == old(log) + [Began]
    {
      var began := context.BeginTransaction();
      if began.Err? {
        return Err(began.error);
      }
      transaction := Some(began.value);
      log := log + [Began];
      r := Ok(());
    }

    /** Commit and dispose the transaction and empty the slot; nothing happens when the slot is empty. */
    method CommitTransactionAsync()
      requires Valid() && !disposed
      modifies this`transaction, this`log, context`inTransaction
      modifies context.students`rows, context.schools`rows, context.todos`rows
      modifies if transaction.Some? then {transaction.value} else {}
      ensures Valid() && transaction.None?
      ensures context.State() == old(context.State())
      ensures old(transaction).None? ==> log == old(log)
      ensures old(transaction).Some? ==>
                log == old(log) + [UowEvent.Committed]
                && old(transaction).value.state == TxState.Committed && old(transaction).value.disposed
    {
      if transaction.Some? {
        var tx := transaction.value;
        tx.Commit();
        tx.Dispose();
        transaction := None;
        log := log + [UowEvent.Committed];
      }
    }

    /** Roll back and dispose the transaction and empty the slot; nothing happens when the slot is empty. */
    method RollbackTransactionAsync()
      requires Valid() && !disposed
      modifies this`transaction, this`log, context`inTransaction
      modifies context.students`rows, context.schools`rows, context.todos`rows
      modifies if transaction.Some? then {transaction.value} else {}
      ensures Valid() && transaction.None?
      ensures old(transaction).None? ==> log == old(log) && context.State() == old(context.State())
      ensures old(transaction).Some? ==>
                log == old(log) + [UowEvent.RolledBack]
                && old(transaction).value.state == TxState.RolledBack && old(transaction).value.disposed
                && context.Rows() == old(transaction).value.snapshot
      ensures context.students.pending == old(context.students.pending)
      ensures context.schools.pending == old(context.schools.pending)
      ensures context.todos.pending == old(context.todos.pending)
    {
      if transaction.Some? {
        var tx := transaction.value;
        tx.Rollback();
        tx.Dispose();
        transaction := None;
        log := log + [UowEvent.RolledBack];
      }
    }

    /** `Dispose()`: `Dispose(true)`. */
    method Dispose()
      requires Valid()
      modifies this`disposed, this`log, context`disposed, context`inTransaction
      modifies context.students`rows, context.schools`rows, context.todos`rows
      modifies if transaction.Some? then {transaction.value} else {}
      ensures Valid() && disposed && transaction == old(transaction)
      ensures old(disposed) ==> log == old(log) && context.Rows() == old(context.Rows())
      ensures !old(disposed) ==> log == old(log) + [DisposedContext] && context.disposed
      ensures !old(disposed) && old(transaction).Some? ==>
                old(transaction).value.disposed && context.Rows() == old(transaction).value.snapshot
      ensures !old(disposed) && old(transaction).None? ==> context.Rows() == old(context.Rows())
    {
      DisposeCore(true);
    }

    /**
     * `Dispose(bool disposing)`: the transaction (an open one rolls back) and the
     * context are released only the first time and only when disposing; the flag
     * is set in every case.
     */
    method DisposeCore(disposing: bool)
      requires Valid()
      modifies this`disposed, this`log, context`disposed, context`inTransaction
      modifies context.students`rows, context.schools`rows, context.todos`rows
      modifies if transaction.Some? then {transaction.value} else {}
      ensures Valid() && disposed && transaction == old(transaction)
      ensures old(disposed) || !disposing ==> log == old(log) && context.Rows() == old(context.Rows())
      ensures !old(disposed) && disposing ==> log == old(log) + [DisposedContext] && context.disposed
      ensures !old(disposed) && disposing && old(transaction).Some? ==>
                old(transaction).value.disposed && context.Rows() == old(transaction).value.snapshot
      ensures !old(disposed) && disposing && old(transaction).None? ==> context.Rows() == old(context.Rows())
    {
      if !disposed && disposing {
        if transaction.Some? {
          transaction.value.Dispose();
        }
        context.Dispose();
        log := log + [DisposedContext];
      }
      disposed := true;
    }
  }
}

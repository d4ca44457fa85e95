// The gateway side of the store: cc_client.py's guarded write and read paths.

module Client {
  import opened Basics
  import opened Rows
  import Adoption

  /** The statement shapes memory_store.py names, and everything else. */
  datatype Statement = InsertMemory | UpsertMemory | InsertEvent | UpsertEvent | Bootstrap | Foreign

  /** The AgentMemory.Memory dataset: rows under their primary key. */
  class MemoryStore {
    var rows: Store

    ghost predicate Keyed()
      reads this
    {
      forall i :: i in rows ==> rows[i].id == i
    }

    constructor ()
      ensures rows == map[] && Keyed()
    {
      rows := map[];
    }
  }

  class CCClient {
    const store: MemoryStore
    const principal: Option<Principal>
    const writeEnabled: bool
    /** No call to the cluster fails for its own reasons. */
    const reliable: bool

    constructor (store: MemoryStore, principal: Option<Principal>, writeEnabled: bool, reliable: bool)
      ensures this.store == store && this.principal == principal && this.writeEnabled == writeEnabled && this.reliable == reliable
    {
      this.store, this.principal, this.writeEnabled, this.reliable := store, principal, writeEnabled, reliable;
    }

    /** A client that may write: enabled, and bound to a tenant. */
    predicate MayWrite() {
      writeEnabled && principal.Some?
    }

    /**
     * execute_memory_write: three guards, then the row goes out stamped with this client's
     * tenant. A failed call may or may not have landed.
     */
    method ExecuteMemoryWrite(statement: Statement, row: Row) returns (r: Result<()>)
      requires store.Keyed()
      modifies store
      ensures store.Keyed()
      ensures !MayWrite() || statement.Foreign? ==> r.Err? && store.rows == old(store.rows)
      ensures !writeEnabled || statement.Foreign? ==> r == Err(Forbidden)
      ensures writeEnabled && !statement.Foreign? && principal.None? ==> r == Err(Internal)
      ensures MayWrite() && statement.UpsertMemory? ==>
        || store.rows == Apply(old(store.rows), Upsert(row), principal.value)
        || (r.Err? && store.rows == old(store.rows))
      ensures MayWrite() && statement.InsertMemory? ==>
        || store.rows == Apply(old(store.rows), Insert(row), principal.value)
        || (r.Err? && store.rows == old(store.rows))
      ensures MayWrite() && statement.InsertMemory? && row.id in old(store.rows) ==> r.Err?
      ensures !statement.UpsertMemory? && !statement.InsertMemory? ==> store.rows == old(store.rows)
      ensures reliable && MayWrite() && !statement.Foreign? && !(statement.InsertMemory? && row.id in old(store.rows)) ==> r.Ok?
    {
      if !writeEnabled {
        return Err(Forbidden);
      }
      if statement.Foreign? {
        return Err(Forbidden);
      }
      if principal.None? {
        return Err(Internal);
      }
      var owned := Tag(row, principal.value);
      if statement.InsertMemory? && row.id in store.rows {
        return Err(Internal);
      }
      var failed, landed: bool := *, *;
      failed := failed && !reliable;
      if !failed || landed {
        if statement.InsertMemory? || statement.UpsertMemory? {
          store.rows := store.rows[row.id := owned];
        }
      }
      return if failed then Err(Internal) else Ok(());
    }

    /**
     * execute_memory_read: refused when unbound or when the statement does not filter on the
     * tenant; otherwise every matching row the tenant sees, each once, and no other.
     */
    method ExecuteMemoryRead(scoped: bool, query: Row -> bool) returns (r: Result<seq<Row>>)
      requires store.Keyed()
      ensures principal.None? || !scoped ==> r == Err(Internal)
      ensures reliable && principal.Some? && scoped ==> r.Ok?
      ensures r.Ok? ==> Selection(store.rows, r.value, principal.value)
      ensures r.Ok? ==> forall row :: row in r.value <==>
        row.id in store.rows && store.rows[row.id] == row && Seen(row, principal.value) && query(row)
    {
      if principal.None? || !scoped {
        return Err(Internal);
      }
      var found: seq<Row>, left := [], store.rows.Keys;
      while left != {}
        invariant left <= store.rows.Keys
        invariant Selection(store.rows, found, principal.value)
        invariant forall k :: 0 <= k < |found| ==> found[k].id !in left
        invariant forall row :: row in found <==>
          row.id in store.rows && row.id !in left && store.rows[row.id] == row && Seen(row, principal.value) && query(row)
        decreases |left|
      {
        var i :| i in left;
        left := left - {i};
        if Seen(store.rows[i], principal.value) && query(store.rows[i]) {
          found := found + [store.rows[i]];
        }
      }
      var failed: bool := *;
      return if failed && !reliable then Err(Internal) else Ok(found);
    }

    /** execute with UNOWNED_MEMORY_QUERY, the one unscoped read: every row nobody owns, each once. */
    method ExecuteUnowned() returns (r: Result<seq<Row>>)
      requires store.Keyed()
      ensures reliable ==> r.Ok?
      ensures r.Ok? ==> Adoption.UnownedView(store.rows, r.value)
    {
      var found: seq<Row>, left := [], store.rows.Keys;
      while left != {}
        invariant left <= store.rows.Keys && Adoption.Unowned(store.rows, found)
        invariant forall k :: 0 <= k < |found| ==> found[k].id !in left
        invariant forall i :: i in store.rows && i !in left && store.rows[i].principal.None? ==> store.rows[i] in found
        decreases |left|
      {
        var i :| i in left;
        left := left - {i};
        if store.rows[i].principal.None? {
          found := found + [store.rows[i]];
        }
      }
      var failed: bool := *;
      return if failed && !reliable then Err(Internal) else Ok(found);
    }
  }
}

/**
 * The AsyncLocalStorage service: one connection to the `ngStorage`
 * database, published once into a replay cell, and getItem, setItem,
 * removeItem and clear over the `localStorage` object store. Each native
 * request's event is a parameter (`Outcome`); an operation returns what its
 * observable emits and the native requests it issued.
 */
module LocalStorage {
  import opened Wrappers
  import opened IndexedDb
  import opened Bridge
  import opened Sequential

  /** Name of the object store that holds the items (in the database `ngStorage`). */
  const ObjectStoreName := "localStorage"

  /**
   * The `upgradeneeded` handler's check-then-create: the object store is
   * created only when its name is absent, so the handler never meets the
   * ConstraintError a second creation would raise, and running it again
   * changes nothing.
   */
  function EnsureObjectStore(names: set<string>): (r: Result<set<string>, DomException>)
    ensures r.Ok?
    ensures ObjectStoreName in r.value && r.value - {ObjectStoreName} == names - {ObjectStoreName}
    ensures ObjectStoreName in names ==> r.value == names
  {
    if ObjectStoreName !in names then CreateObjectStore(names, ObjectStoreName) else Ok(names)
  }

  class AsyncLocalStorage {
    /** Names of the object stores of the opened database. */
    var schema: set<string>
    /** `first()` on the `upgradeneeded` events has taken its event. */
    var upgradeSeen: bool
    /** `first()` on the merged `success` and `error` events of the open request has taken its event. */
    var openSettled: bool
    /** The values given to the ReplaySubject `database`, in order. */
    var database: seq<Connection>
    /** The records of the `localStorage` object store. */
    var store: Store

    /**
     * The replay cell holds at most one connection, and only once the open
     * request has settled; a finished upgrade leaves the object store in place.
     */
    ghost predicate Valid()
      reads this
    {
      && |database| <= 1
      && (database != [] ==> openSettled)
      && (database != [] ==> ObjectStoreName in schema)
      && (upgradeSeen ==> ObjectStoreName in schema)
    }

    /**
     * Creates the replay cell and issues the open request for `ngStorage`.
     * `persisted` is the object store's content from earlier sessions, or
     * None when the database does not exist yet.
     */
    constructor (persisted: Option<Store>)
      ensures Valid()
      ensures database == [] && !openSettled && !upgradeSeen
      ensures schema == (if persisted.Some? then {ObjectStoreName} else {})
      ensures store == (if persisted.Some? then persisted.value else map[])
    {
      schema := if persisted.Some? then {ObjectStoreName} else {};
      store := if persisted.Some? then persisted.value else map[];
      upgradeSeen := false;
      openSettled := false;
      database := [];
    }

    /**
     * The open request fires `upgradeneeded`: the first such event creates
     * the object store if it is missing; later ones are ignored. IndexedDB
     * fires it before the open request settles.
     */
    method OnUpgradeNeeded()
      requires Valid()
      requires !openSettled
      modifies this`schema, this`upgradeSeen
      ensures Valid() && upgradeSeen
      ensures old(upgradeSeen) ==> schema == old(schema)
      ensures !old(upgradeSeen) ==> schema == old(schema) + {ObjectStoreName}
    {
      if !upgradeSeen {
        upgradeSeen := true;
        var upgraded := EnsureObjectStore(schema);
        schema := upgraded.value;
      }
    }

    /**
     * The open request fires `success` (with connection `conn`) or `error`.
     * Only the first of these events is taken: a success publishes `conn`
     * into the replay cell; an error raises the connection Error, which no
     * one handles, and publishes nothing. Events after the first emit nothing.
     * IndexedDB fires `success` only on a database holding the object store:
     * one that existed with it, or a new one after `upgradeneeded`.
     */
    method OnOpenEvent(fired: Outcome, conn: Connection) returns (e: Emission<Connection>)
      requires Valid()
      requires !openSettled && fired == Success ==> ObjectStoreName in schema
      modifies this`openSettled, this`database
      ensures Valid() && openSettled
      ensures old(openSettled) ==> e == Silent && database == old(database)
      ensures !old(openSettled) && fired == Success ==> e == Next(conn) && database == [conn]
      ensures !old(openSettled) && fired == Error ==> e == Raised(ErrorMessage("connection")) && database == []
    {
      if openSettled {
        return Silent;
      }
      openSettled := true;
      var success := if fired == Success then Some(conn) else None;
      e := MergeFirst(success, ToErrorObservable(fired, "connection"));
      if e.Next? {
        database := database + [e.value];
      }
    }

    /**
     * `transaction(mode)`: for the published connection, a transaction
     * scoped to exactly the `localStorage` object store, in `mode`
     * (read-only unless asked), and that object store within it. Nothing
     * while no connection is published.
     */
    function Transaction(mode: Mode := ReadOnly): (access: Option<StoreAccess>)
      reads this
      requires Valid()
      ensures access.Some? <==> database != []
      ensures access.Some? ==> access.value.txn.conn == database[0]
      ensures access.Some? ==> access.value.txn.scope == [ObjectStoreName] && access.value.name == ObjectStoreName
      ensures access.Some? ==> access.value.txn.mode == mode
    {
      if database == [] then None
      else Some(StoreAccess(Txn(database[0], [ObjectStoreName], mode), ObjectStoreName))
    }

    /**
     * The requests `getItem(key)` issues: one `get` of `key` in a read-only
     * transaction once a connection is published, none before.
     */
    function GetItemRequests(key: Key): (issued: seq<Request>)
      reads this
      requires Valid()
      ensures database == [] ==> issued == []
      ensures database != [] ==> |issued| == 1 && issued[0].op == GetOp(key)
      ensures database != [] ==> issued[0].access.txn.mode == ReadOnly && issued[0].access.txn.conn == database[0]
      ensures database != [] ==> issued[0].access.txn.scope == [ObjectStoreName] && issued[0].access.name == ObjectStoreName
    {
      match Transaction()
      case None => []
      case Some(access) => [Request(access, GetOp(key))]
    }

    /**
     * `getItem(key)`: a read-only `get` (the request GetItemRequests gives). On success, the record's value if a
     * record exists for `key` and `null` otherwise: a missing item is a
     * success, never an error.
     */
    function GetItem(key: Key, fired: Outcome): (r: Emission<Value>)
      reads this
      requires Valid()
      ensures r.Silent? <==> database == []
      ensures r.Next? <==> database != [] && fired == Success
      ensures r.Next? && key in store ==> r.value == store[key].value
      ensures r.Next? && key !in store ==> r.value == Null
      ensures r.Raised? ==> r.message == ErrorMessage("getter")
    {
      match Transaction()
      case None => Silent
      case Some(_) =>
        var success := if fired == Success then Some(Lookup(store, key)) else None;
        MergeFirst(success, ToErrorObservable(fired, "getter"))
    }

    /**
     * `setItem(key, data)`: a `getItem(key)`, then in a read-write
     * transaction `add({value: data}, key)` when it gave a nullish value and
     * `put({value: data}, key)` otherwise. `readFired` and `writeFired` are
     * the events of the two requests.
     */
    method SetItem(key: Key, data: Value, readFired: Outcome, writeFired: Outcome)
      returns (r: Emission<bool>, issued: seq<Request>)
      requires Valid()
      requires !data.IsNullish()
      modifies this`store
      ensures Valid()
      ensures r != Next(true) ==> store == old(store)
      ensures r == Next(true) ==> store == old(store)[key := Record(data)]
      ensures database == [] ==> r == Silent && issued == []
      ensures database != [] && readFired == Error ==>
        r == Raised(ErrorMessage("getter")) && issued == GetItemRequests(key)
      ensures database != [] && readFired == Success ==>
        && |issued| == 2
        && issued[..1] == GetItemRequests(key)
        && issued[1].access == Transaction(ReadWrite).value
        && (issued[1].op.AddOp? <==> old(GetItem(key, readFired)).value.IsNullish())
        && (issued[1].op == AddOp(Record(data), key) || issued[1].op == PutOp(Record(data), key))
        && (r == Next(true) <==> writeFired == Success && !(issued[1].op.AddOp? && key in old(store)))
        && (r != Next(true) ==> r == Raised(ErrorMessage("setter")))
      ensures database != [] && readFired == Success && writeFired == Success ==>
        store == Apply(old(store), SetItemCall(key, data))
      ensures NoNullish(old(store)) ==> NoNullish(store)
      ensures NoNullish(old(store)) ==> forall q :: q in issued && q.op.AddOp? ==> q.op.key !in old(store)
    {
      issued := GetItemRequests(key);
      if issued == [] {
        return Silent, [];
      }
      var got := GetItem(key, readFired);
      if got.Raised? {
        return Raised(got.message), issued;
      }
      var noOverwrite := got.value.IsNullish();
      var record := Record(data);
      var op := if noOverwrite then AddOp(record, key) else PutOp(record, key);
      issued := issued + [Request(Transaction(ReadWrite).value, op)];
      var stored := StoreRecord(store, record, key, noOverwrite);
      var fired := if writeFired == Success && stored.Ok? then Success else Error;
      if fired == Success {
        store := stored.value;
      }
      r := MergeFirst(ToSuccessObservable(fired), ToErrorObservable(fired, "setter"));
    }

    /**
     * `removeItem(key)`: a `getItem(key)`; when it gave a nullish value,
     * `true` at once with no write transaction; otherwise `delete(key)` in a
     * read-write transaction. `readFired` and `deleteFired` are the events of
     * the two requests.
     */
    method RemoveItem(key: Key, readFired: Outcome, deleteFired: Outcome)
      returns (r: Emission<bool>, issued: seq<Request>)
      requires Valid()
      modifies this`store
      ensures Valid()
      ensures database == [] ==> r == Silent && issued == [] && store == old(store)
      ensures database != [] && readFired == Error ==>
        r == Raised(ErrorMessage("getter")) && issued == GetItemRequests(key) && store == old(store)
      ensures database != [] && readFired == Success && Lookup(old(store), key).IsNullish() ==>
        r == Next(true) && issued == GetItemRequests(key) && store == old(store)
      ensures database != [] && readFired == Success && !Lookup(old(store), key).IsNullish() ==>
        && issued == GetItemRequests(key) + [Request(Transaction(ReadWrite).value, DeleteOp(key))]
        && (deleteFired == Success ==> r == Next(true) && store == DeleteRecord(old(store), key))
        && (deleteFired == Error ==> r == Raised(ErrorMessage("remover")) && store == old(store))
      ensures database != [] && readFired == Success && deleteFired == Success ==>
        r == Next(true) && store == Apply(old(store), RemoveItemCall(key))
    {
      issued := GetItemRequests(key);
      if issued == [] {
        return Silent, [];
      }
      var got := GetItem(key, readFired);
      if got.Raised? {
        return Raised(got.message), issued;
      }
      if !got.value.IsNullish() {
        issued := issued + [Request(Transaction(ReadWrite).value, DeleteOp(key))];
        if deleteFired == Success {
          store := DeleteRecord(store, key);
        }
        r := MergeFirst(ToSuccessObservable(deleteFired), ToErrorObservable(deleteFired, "remover"));
        return;
      }
      r := Next(true);
    }

    /**
     * `clear()`: `clear()` in a read-write transaction, whatever the store
     * holds; `fired` is the request's event.
     */
    method Clear(fired: Outcome) returns (r: Emission<bool>, issued: seq<Request>)
      requires Valid()
      modifies this`store
      ensures Valid()
      ensures database == [] ==> r == Silent && issued == [] && store == old(store)
      ensures database != [] ==> issued == [Request(Transaction(ReadWrite).value, ClearOp)]
      ensures database != [] && fired == Success ==> r == Next(true) && store == map[]
      ensures database != [] && fired == Error ==> r == Raised(ErrorMessage("clearer")) && store == old(store)
      ensures database != [] && fired == Success ==> store == Apply(old(store), ClearCall)
    {
      var access := Transaction(ReadWrite);
      if access.None? {
        return Silent, [];
      }
      issued := [Request(access.value, ClearOp)];
      if fired == Success {
        store := map[];
      }
      r := MergeFirst(ToSuccessObservable(fired), ToErrorObservable(fired, "clearer"));
    }
  }

  /**
   * The default-configuration scenario: a new database, upgraded and
   * opened; `setItem("a", "1")`, `getItem("a")`, `removeItem("a")`,
   * `getItem("a")`, then `clear()` on the empty store, every request
   * succeeding.
   */
  method DefaultScenario(conn: Connection) returns (writes: seq<Emission<bool>>, readBack: seq<Emission<Value>>)
    ensures writes == [Next(true), Next(true), Next(true)]
    ensures readBack == [Next(Data("1")), Next(Null)]
  {
    var service := new AsyncLocalStorage(None);
    service.OnUpgradeNeeded();
    var published := service.OnOpenEvent(Success, conn);
    var stored, setRequests := service.SetItem("a", Data("1"), Success, Success);
    var got := service.GetItem("a", Success);
    var removed, removeRequests := service.RemoveItem("a", Success, Success);
    var gone := service.GetItem("a", Success);
    var cleared, clearRequests := service.Clear(Success);
    writes := [stored, removed, cleared];
    readBack := [got, gone];
  }

  /**
   * A failed open: the connection Error is raised once, and every operation
   * then waits forever, issuing no request. IndexedDB never fires `success`
   * after `error` on one request; the second event here only exercises
   * `first()`, which would ignore it.
   */
  method FailedOpenScenario(conn: Connection, key: Key, data: Value, fired: Outcome)
    returns (opening: seq<Emission<Connection>>, read: Emission<Value>, written: Emission<bool>, issued: seq<Request>)
    requires !data.IsNullish()
    ensures opening == [Raised("IndexedDB connection issue."), Silent]
    ensures read == Silent && written == Silent && issued == []
  {
    var service := new AsyncLocalStorage(None);
    var failed := service.OnOpenEvent(Error, conn);
    var late := service.OnOpenEvent(Success, conn);
    assert ErrorMessage("connection") == "IndexedDB connection issue.";
    opening := [failed, late];
    read := service.GetItem(key, fired);
    written, issued := service.SetItem(key, data, fired, fired);
  }
}

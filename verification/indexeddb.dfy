/**
 * The part of the Indexed Database API the service relies on, abstracted:
 * JavaScript values, the records of one object store as a map, the schema as
 * a set of object store names, transactions and the native requests issued
 * in them. The storage steps follow the W3C Indexed Database API 2.0.
 */
module IndexedDb {
  import opened Wrappers

  /** A record key. Keys are out-of-line: the caller passes them beside the record. */
  type Key = string

  /**
   * A JavaScript value as the service sees it: `null`, `undefined`, or any
   * other value (kept abstract as its structured-clone serialisation).
   */
  datatype Value = Null | Undefined | Data(payload: string)
  {
    /** JavaScript's loose `v == null`, true of both `null` and `undefined`. */
    predicate IsNullish() { Null? || Undefined? }
  }

  /** The object the service stores for an item: `{ value: data }`. */
  datatype Record = Record(value: Value)

  /** The records of one object store, by key. */
  type Store = map<Key, Record>

  /** The DOMException names the modelled steps can fail with. */
  datatype DomException = ConstraintError

  /** The event a native request fires: IndexedDB fires exactly one of the two. */
  datatype Outcome = Success | Error

  datatype Mode = ReadOnly | ReadWrite

  /** An open database connection (the `result` of a successful open request). */
  datatype Connection = Connection(id: nat)

  /** A transaction: the connection it runs on, its scope of object store names and its mode. */
  datatype Txn = Txn(conn: Connection, scope: seq<string>, mode: Mode)

  /** `transaction.objectStore(name)`: the object store accessed within a transaction. */
  datatype StoreAccess = StoreAccess(txn: Txn, name: string)

  /** The calls on an object store the service makes; `add` and `put` take the record first. */
  datatype NativeOp =
    | GetOp(key: Key)
    | AddOp(record: Record, key: Key)
    | PutOp(record: Record, key: Key)
    | DeleteOp(key: Key)
    | ClearOp

  /** A native request: which call was made, on which object store access. */
  datatype Request = Request(access: StoreAccess, op: NativeOp)

  /**
   * `createObjectStore(name)` without options: no key path and no key
   * generator. Fails with ConstraintError when the name is already taken.
   */
  function CreateObjectStore(names: set<string>, name: string): (r: Result<set<string>, DomException>)
    ensures r.Err? <==> name in names
    ensures r.Ok? ==> name in r.value && r.value - {name} == names
  {
    if name in names then Err(ConstraintError) else Ok(names + {name})
  }

  /** Retrieving a value from an object store: the record under `key`, if any. */
  function GetRecord(s: Store, key: Key): (r: Option<Record>)
    ensures r.Some? <==> key in s
    ensures r.Some? ==> r.value == s[key]
  {
    if key in s then Some(s[key]) else None
  }

  /**
   * The object store storage operation (section 5.1 of the W3C Indexed
   * Database API 2.0) for an out-of-line key and no key generator: `add`
   * sets the no-overwrite flag and then fails when a record with that key
   * exists; `put` replaces it.
   */
  function StoreRecord(s: Store, record: Record, key: Key, noOverwrite: bool): (r: Result<Store, DomException>)
    ensures r.Err? <==> noOverwrite && key in s
    ensures r.Ok? ==> GetRecord(r.value, key) == Some(record)
    ensures r.Ok? ==> r.value.Keys == s.Keys + {key}
    ensures r.Ok? ==> forall k :: k in s && k != key ==> r.value[k] == s[k]
  {
    if noOverwrite && key in s then Err(ConstraintError) else Ok(s[key := record])
  }

  /** Deleting records from an object store: removes `key`'s record; an absent key is no error. */
  function DeleteRecord(s: Store, key: Key): (r: Store)
    ensures GetRecord(r, key) == None
    ensures r.Keys == s.Keys - {key}
    ensures forall k :: k in r ==> r[k] == s[k]
  {
    s - {key}
  }
}

# AsyncLocalStorage, modelled in Dafny

A model of the `AsyncLocalStorage` service of angular-async-local-storage: a
key–value "local storage" on top of IndexedDB. The service opens the
`ngStorage` database once, creates the `localStorage` object store on
`upgradeneeded` if it is missing, publishes the connection into a
ReplaySubject on the first `success` event, and offers `getItem`, `setItem`,
`removeItem` and `clear`, each of which turns the one event its native
request fires into one emission (`true` or the item's value, or an
`Error("IndexedDB <context> issue.")`).

The model is sequential and deterministic. The event each native request
fires is an explicit `Outcome` parameter (`Success` or `Error`); an operation
returns what its observable emits (`Silent`, `Next(v)` or `Raised(message)`)
and the native requests it issued (object store access with its transaction
mode and scope, and the call: `get`, `add`, `put`, `delete`, `clear`).

Files:

- `wrappers.dfy` — `Option` and `Result`.
- `indexeddb.dfy` — the engine as the service uses it: JavaScript values
  (`null`, `undefined`, other), the record `{ value: data }`, an object store
  as `map<Key, Record>`, the schema as a set of names, and the storage steps
  of the W3C Indexed Database API 2.0 (`add` sets the no-overwrite flag of
  the object store storage operation, section 5.1, and fails with
  ConstraintError on an existing key; `put` overwrites; `delete` of an absent
  key succeeds).
- `bridge.dfy` — `toSuccessObservable`, `toErrorObservable`,
  `merge(...).first()` and the error message.
- `sequential.dfy` — what a single sequential caller sees: the value
  `getItem` emits for a store, the store each call leaves when every request
  succeeds, and write-then-read consistency over any run of calls with
  non-nullish `setItem` data from a store without nullish records.
- `local_storage.dfy` — the class `AsyncLocalStorage`: the connection state
  machine (`schema`, the `first()` flags, the replay cell `database`) and the
  object store contents `store`, with the four operations and
  `transaction()`.

Three behaviours of the code worth knowing:

- On a connection error nothing is published (the Error raised by
  `toErrorObservable(request, "connection")` reaches a subscriber with no
  error handler), so every later operation waits forever rather than failing.
  `FailedOpenScenario` states this.
- The configured key path `"key"` is never passed to `createObjectStore`:
  keys are out-of-line and passed as the second argument of `add`/`put`.
  The model's `CreateObjectStore` accordingly takes no key path. Of the
  configured names, `"localStorage"` is the constant `ObjectStoreName`,
  `"value"` is the one field of `Record`, `"key"` shows only as that absent
  key path, and the database name `ngStorage` appears in comments only (the
  model has no database names).
- `setItem` and `removeItem` test the read value with JavaScript's loose
  `== null`. If a record holding `null` or `undefined` is ever present (which
  `setItem`'s own precondition rules out), `setItem` issues `add` for an
  existing key, which fails with the "setter" error, and `removeItem` returns
  `true` without deleting it. The model keeps these paths; the guarantee that
  `add` is never issued for an existing key is stated for stores without such
  records (`NoNullish`), which admissible calls preserve.

## Model

| member | source | states |
|---|---|---|
| `IndexedDb.CreateObjectStore` | dist/src/async-local-storage.js:46 | Creating an object store fails with ConstraintError exactly when the name exists; otherwise the schema gains exactly that name. |
| `IndexedDb.GetRecord` | dist/src/async-local-storage.js:65 | The native `get` yields the record under the key exactly when one exists, and nothing (undefined) otherwise. |
| `IndexedDb.StoreRecord` | dist/src/async-local-storage.js:87 | `add`/`put` storage step: fails exactly when the no-overwrite flag is set and the key exists; on success the key holds the record, the key set grows by that key only, other records are unchanged. |
| `IndexedDb.DeleteRecord` | dist/src/async-local-storage.js:108 | `delete(key)` removes exactly that key's record and keeps every other record. |
| `Bridge.ErrorMessage` | dist/src/async-local-storage.js:160 | The message is `"IndexedDB "`, then exactly the context, then `" issue."`. |
| `Bridge.ErrorMessageInjective` | dist/src/async-local-storage.js:157-161 | Two contexts give the same message if and only if they are equal, so the message identifies the failing operation (getter, setter, remover, clearer, connection). |
| `Bridge.ToSuccessObservable` | dist/src/async-local-storage.js:147-150 | Emits a value exactly on the success event, and that value is `true`. |
| `Bridge.ToErrorObservable` | dist/src/async-local-storage.js:157-161 | Raises exactly on the error event, with the message for its context, which defaults to the empty string. |
| `Bridge.MergeFirst` | dist/src/async-local-storage.js:89 | `merge(success, failure).first()` emits the success value if the success source emitted, the failure if it raised, nothing if neither did. |
| `Bridge.BridgeYieldsOneResult` | dist/src/async-local-storage.js:147-161 | Every request yields exactly one result through the bridge: `true` on success, the contextual Error on error. |
| `Sequential.Lookup` | dist/src/async-local-storage.js:67-69 | A successful get passes on the record's value when a record exists and `null` otherwise; on a store without nullish values the result is nullish exactly when the key is absent. |
| `Sequential.Apply` | dist/src/async-local-storage.js:80-130 | When every request succeeds: setItem stores the record `{value: data}` under the key (whether or not the key was present) unless a record already holding a nullish value blocks `add`; when the key already holds a nullish value, setItem and removeItem leave the whole store as it was, and so does removeItem of an absent key; removeItem removes the key whenever its record does not hold a nullish value, whatever other records hold; clear leaves no record; other keys are unchanged, and a store without nullish values stays so under non-nullish writes. |
| `Sequential.RunKeepsNoNullish` | dist/src/async-local-storage.js:74-80 | Calls that respect setItem's non-null precondition never store a nullish value. |
| `Sequential.ReadsLastWritten` | dist/src/async-local-storage.js:58-130 | Starting from a store without nullish values, after any run of sequential calls whose setItem data are non-nullish and whose every request succeeds, getItem of a key emits the data of the last setItem of that key, or `null` after a later removeItem or clear. |
| `Sequential.ClearThenGet` | dist/src/async-local-storage.js:117-130 | After any run of calls followed by a successful clear, every key reads as `null`, not as an error. |
| `Sequential.SetTwiceReadsSecond` | dist/src/async-local-storage.js:80-93 | setItem(k, v1) then setItem(k, v2) reads back v2, and the store gains only the key k (no duplicate record). |
| `LocalStorage.EnsureObjectStore` | dist/src/async-local-storage.js:44-47 | The upgrade handler never fails: it creates the object store only when absent, and leaves a schema that already has it unchanged. |
| `LocalStorage.AsyncLocalStorage.constructor` | dist/src/async-local-storage.js:16-37 | A new service has published nothing and taken no open event yet. |
| `LocalStorage.AsyncLocalStorage.OnUpgradeNeeded` | dist/src/async-local-storage.js:39-48 | Before the open request settles, the first upgrade event leaves the object store in the schema; repeated upgrade events change nothing. |
| `LocalStorage.AsyncLocalStorage.OnOpenEvent` | dist/src/async-local-storage.js:50-55 | Only the first open event counts: a success (which the engine fires only once the object store exists) publishes its connection, an error raises the connection Error and publishes nothing; once settled, the replay cell never changes and later events emit nothing; a published connection always has the object store behind it. |
| `LocalStorage.AsyncLocalStorage.Transaction` | dist/src/async-local-storage.js:136-141 | Nothing until a connection is published; then a transaction on that one connection, scoped to exactly the object store, in the requested mode (read-only by default). |
| `LocalStorage.AsyncLocalStorage.GetItemRequests` | dist/src/async-local-storage.js:65 | getItem issues nothing before publication and afterwards exactly one `get` of the key, in a read-only transaction on the published connection scoped to the object store. |
| `LocalStorage.AsyncLocalStorage.GetItem` | dist/src/async-local-storage.js:62-73 | Waits while no connection is published; on success emits the record's value or `null` for a missing key; on error emits the getter Error. |
| `LocalStorage.AsyncLocalStorage.SetItem` | dist/src/async-local-storage.js:80-93 | Issues `add` exactly when getItem gave a nullish value and `put` otherwise, always in a read-write transaction with the record `{value: data}` under the key; `true` only when the write succeeds, after which the key holds the data and nothing else changed; getter or setter Error otherwise with the store unchanged; never `add` on an existing key in a store without nullish values. |
| `LocalStorage.AsyncLocalStorage.RemoveItem` | dist/src/async-local-storage.js:99-116 | When getItem gives a nullish value: `true`, no read-write transaction, store unchanged; otherwise `delete(key)` in a read-write transaction, `true` on success with only that key removed, the remover Error on failure. |
| `LocalStorage.AsyncLocalStorage.Clear` | dist/src/async-local-storage.js:121-130 | Always one `clear` in a read-write transaction; on success `true` and no records left, also on an empty store; the clearer Error otherwise with the store unchanged. |
| `LocalStorage.DefaultScenario` | dist/src/async-local-storage.js:62-130 | With the defaults: setItem("a", "1") → true, getItem("a") → "1", removeItem("a") → true, getItem("a") → null, clear() on the empty store → true. |
| `LocalStorage.FailedOpenScenario` | dist/src/async-local-storage.js:50-55 | After a failed open the connection Error is raised once, a later success is ignored, and getItem and setItem wait forever issuing no request. |

## Left out

- RxJS machinery (`fromEvent`, `merge`, `first`, `mergeMap`, `pluck`) and the timing of subscriptions and completion: each observable is reduced to what it emits for given events.
- Calls made before the connection is published: in the source they resume when it is published; the model returns `Silent` for them, and a caller expresses the resumed call by calling again after `OnOpenEvent`.
- Interleavings between the existence check and the write in `setItem` and `removeItem`: the source gives no atomicity, and modelling concurrent callers is out of scope; each operation is a check followed directly by its write.
- Storage engine internals: persistence, versioning, transaction auto-commit and the freshness of each transaction object; every environmental failure of a request (quota, abort, I/O) is the `Error` outcome, and only ConstraintError from `add` is derived by the model.
- A database `ngStorage` that already exists without the `localStorage` object store (where `transaction()` would throw NotFoundError) is not modelled; the constructor takes either no database or one holding the object store.
- Keys are strings; other IndexedDB key types and the DataError thrown for an invalid key are not modelled.
- The thrown, unhandled Error after a failed open is returned by `OnOpenEvent` instead of being thrown; the indefinite waits that follow are `Silent` results.
- Angular dependency-injection metadata (`decorators`, `ctorParameters`) and the `console.log` in the upgrade handler.

# kv-storage: the LRU cache and the request handlers

This project models the core of kv-storage, a key-value service backed by a
database. It has two parts.

The first part is the LRU cache of `cache/main.go`. There are `node` objects
with `prev`/`next` pointers, set between a head and a tail sentinel. A map `m`
takes each key to its node. The nodes next to head are the most recently used;
the node next to tail is the least recently used. `Get`, `Put` and `DeleteKey`
on `LRUCache` rewire the pointers and update the map in place.

The second part is the three request handlers: `SetKeyValue`,
`DeleteKeyValue` and `GetKeyValue`. Each handler checks its input and looks
the key up in the store. It then picks a status code and decides whether to
write to the store and the cache.

The model has four modules, one file each:

- `LruSpec` (`lru_spec.dfy`) is the abstract recency list. It is a
  `seq<Entry>`, most recently used first, with the functions `Get`, `Promote`
  (moveToFront), `DropLast` (removeLast), `Put` and `Delete`. The cache's promises are proved as lemmas about these
  functions: key uniqueness, the size bound, eviction order, and the
  put-then-get and delete-then-get laws.
- `Cache` (`cache.dfy`) holds the classes `Node`, `Dll` and `LRUCache`, with
  the Go pointer writes done on real objects. Each `Dll` carries ghost fields:
  `nodes` and `Contents` list the nodes and their entries from head to tail.
  `Valid()` ties these to the pointers and to the map: following `next` from
  head and `prev` from tail runs through exactly `nodes`, no node occurs
  twice, each node carries its entry, and the map holds exactly the listed
  keys, each sent to its node. Every method keeps `Valid()`. `MoveToFront`,
  `RemoveLast` and the `LRUCache` methods `Get`, `Put` and `DeleteKey` state
  their new `Contents` as an `LruSpec` function of the old contents;
  `AddToFront` and `SetValue` state it as the old contents with the new entry
  put in front or with one entry's value replaced.
- `Store` (`store.dfy`) models the gorm calls on the KV table as operations
  on a `map<string, string>`; the unique index on `key_name`
  (`model/main.go:6`) is why the store is a map. Whether a database call fails
  is passed in as a flag. `First` reports the stored value, record-not-found
  for an absent key, or an error when the call fails. `Create` inserts the
  pair unless the call fails or the key is already stored, and then reports
  an error and leaves the map as it was. `Delete` removes the key unless the
  call fails. These three are the building blocks of the handlers; what they
  promise together is stated by the lemmas `CreateThenFirst`,
  `CreateStoredKeyFails` and `DeleteThenFirst`.
- `Handlers` (`handlers.dfy`) holds:
  - the status codes and the capacity 200 of `main.go`;
  - one step function per handler, giving its response and the new
    (store, cached entries) state;
  - a `KvService` class whose methods run the handlers on a real `LRUCache`
    and are proved against the step functions; each also promises that any
    object it adds to the cache's footprint is new, so requests can follow
    one another;
  - the lemmas about those step functions.

A capacity of zero does not mean "cache nothing". `Put` evicts only when
`len(m) >= capacity` (`cache/main.go:101`), and `removeLast` does nothing on
an empty list (`cache/main.go:47-49`), so a cache of capacity zero or below
still holds one entry. The bound proved is
`size <= max(capacity, 1)` (`LruSpec.Bound`), and
`LruSpec.CapacityZeroHoldsOne` shows the difference.

## Model

| member | source | states |
|---|---|---|
| LruSpec.Lookup | cache/main.go:69 | the lookup finds a value exactly when the key is on the list |
| LruSpec.LookupAt | cache/main.go:95 | with unique keys, the lookup of the key at any position returns that entry's value |
| LruSpec.LookupIn | cache/main.go:75 | a value the lookup returns is carried by an entry on the list under that key |
| LruSpec.Remove | cache/main.go:112-116 | removal leaves exactly the other keys, and never lengthens the list |
| LruSpec.RemoveAt | cache/main.go:113-115 | with unique keys, removing the key at position i splices out exactly that entry; the others keep their order |
| LruSpec.RemoveAbsent | cache/main.go:112 | removing a key that is not on the list changes nothing |
| LruSpec.RemoveUnique | cache/main.go:115 | removal keeps keys unique |
| LruSpec.RemoveFrom | cache/main.go:113-115 | every entry left after removal was on the list and carries another key |
| LruSpec.KeysCount | cache/main.go:101 | with unique keys there are as many keys as entries, so `len(m)` is the list's length |
| LruSpec.DropLastKeys | cache/main.go:45-53 | removeLast drops exactly the least recently used key and keeps keys unique |
| LruSpec.GetAbsent | cache/main.go:68-73 | Get of an absent key returns ("", false) and leaves the order unchanged |
| LruSpec.GetPresent | cache/main.go:75-88 | Get of the key at position i returns its value with true and moves that entry to the front; the others keep their relative order |
| LruSpec.PromotePreserves | cache/main.go:24-33 | moving an entry to the front keeps the keys, their uniqueness and the length |
| LruSpec.PromoteInv | cache/main.go:81-86 | Get keeps unique keys and the size bound |
| LruSpec.SetValueAt | cache/main.go:96 | overwriting a value keeps the keys and their uniqueness |
| LruSpec.PutExisting | cache/main.go:95-99 | Put of a present key sets the new value, moves the entry to the front, keeps the other entries in order and keeps the size |
| LruSpec.SetPromote | cache/main.go:96-97 | Put of a present key is the value write followed by the move to the front |
| LruSpec.PutEvictsLast | cache/main.go:101-105 | Put of a new key into a cache at capacity drops the least recently used entry from the list and from the keys, then puts the new entry in front; the size is unchanged |
| LruSpec.PutBelowCapacity | cache/main.go:101-105 | Put of a new key below capacity puts the new entry in front and evicts nothing |
| LruSpec.PutInv | cache/main.go:91-106 | Put keeps unique keys and the size at most max(capacity, 1) |
| LruSpec.PutFrom | cache/main.go:91-106 | every entry after Put is the new pair or an earlier entry with another key |
| LruSpec.PutThenGet | cache/main.go:91-106 | after Put(k, v), Get(k) returns (v, true) |
| LruSpec.DeletePresent | cache/main.go:108-117 | DeleteKey of the key at position i splices out that entry, keeps the others in order and shortens the list by one |
| LruSpec.DeleteThenGet | cache/main.go:108-117 | after DeleteKey(k), Get(k) misses |
| LruSpec.DeleteIdempotent | cache/main.go:112 | a second DeleteKey of the same key changes nothing |
| LruSpec.DeleteInv | cache/main.go:108-117 | DeleteKey keeps unique keys and the size bound |
| LruSpec.GetProtectsFromEviction | cache/main.go:84 | after a Get of a cached key, the next Put of a new key into a cache of two or more entries does not evict it |
| LruSpec.RunInv | cache/main.go:66-117 | any run of Get, Put and DeleteKey from a valid state keeps unique keys and the size bound |
| LruSpec.ScenarioGetThenOverflow | cache/main.go:101-105 | capacity 2: put a, put b, get a, put c evicts b and leaves c then a |
| LruSpec.ScenarioOverflowEvictsFirst | cache/main.go:101-105 | capacity 2: three distinct puts with no Get evict the first key |
| LruSpec.OverflowEvictsFirst | cache/main.go:101-105 | for any capacity n >= 1, n + 1 Puts of distinct keys into an empty cache, with no Get between them, leave exactly the last n entries, newest first, and evict the first key |
| LruSpec.CapacityZeroHoldsOne | cache/main.go:47-49 | with capacity 0 a Put into an empty cache keeps its entry, and a Put of another key replaces it |
| Cache.Unlink | cache/main.go:26-27 | the detach writes bypass a node: the chain without it is again linked both ways |
| Cache.LinkAfterFirst | cache/main.go:29-32 | the insert writes put a node that is not on the chain right after head, and the chain is linked both ways |
| Cache.ListFind | cache/main.go:95 | a key in the map names the node at some position i that carries the key's entry; Get of the key yields that value, and Put of the key is the value write then the move to the front |
| Cache.ListSize | cache/main.go:101 | the map holds one key per listed node, so `len(m)` is the list's size |
| Cache.ListLast | cache/main.go:47-49 | tail.prev is the last listed node, and is head exactly when the list is empty |
| Cache.MoveNode | cache/main.go:24-33 | the six link writes of moveToFront keep the list well-formed, draw on the same nodes, and turn the entries into Promote of the old ones |
| Cache.AddNode | cache/main.go:35-43 | the four link writes of addToFront, with the new key mapped to the new node, keep the list well-formed with the new entry in front |
| Cache.SpliceNode | cache/main.go:113-115 | the two link writes, with the key out of the map, keep the list well-formed and turn the entries into Delete of the old ones |
| Cache.SetNodeValue | cache/main.go:96 | the value write changes only that node's entry, and the list stays well-formed |
| Cache.Dll.constructor | cache/main.go:16-22 | newDLL: head.next is tail, tail.prev is head, the map is empty, the list is empty and valid |
| Cache.Dll.Find | cache/main.go:69 | a key in the map is sent to a listed node carrying that key; its value is what Get returns |
| Cache.Dll.Size | cache/main.go:101 | `len(m)` is the number of entries, and the map's keys are the listed keys |
| Cache.Dll.MoveToFront | cache/main.go:24-33 | moveToFront keeps the list valid and the map unchanged; the entries become Promote of the old ones |
| Cache.Dll.AddToFront | cache/main.go:35-43 | addToFront of an absent key keeps the list valid, puts the entry in front and maps the key to the fresh node |
| Cache.Dll.RemoveLast | cache/main.go:45-53 | removeLast drops the least recently used entry from the list and the map, and does nothing on an empty list |
| Cache.Dll.SetValue | cache/main.go:96 | `n.value = value` changes the entry at the node's position only, and keeps the list valid |
| Cache.LRUCache.constructor | cache/main.go:61-63 | NewLRUCache gives an empty, valid cache with the given capacity |
| Cache.LRUCache.Get | cache/main.go:66-89 | Get returns what LruSpec.Get promises; the cache's entries become Promote of the old ones; the cache stays within its bound |
| Cache.LRUCache.Put | cache/main.go:91-106 | Put leaves exactly LruSpec.Put of the old entries: update and promote a present key; otherwise evict the LRU entry when len(m) >= capacity, then add in front; the cache stays within its bound |
| Cache.LRUCache.DeleteKey | cache/main.go:108-117 | DeleteKey leaves exactly LruSpec.Delete of the old entries, and changes nothing for an absent key |
| Store.CreateThenFirst | addKeyValue.go:26-32 | a pair Create accepted is found, with its value, by the next lookup |
| Store.CreateStoredKeyFails | model/main.go:6 | the unique index on key_name: a Create of a key already stored reports an error, and the next lookup still finds the old value |
| Store.DeleteThenFirst | deleteKeyValue.go:23-38 | after a successful Delete the lookup reports record-not-found; after a failed one it reports what it did before |
| Handlers.SetStep | addKeyValue.go:10-70 | SetKeyValue as written: 400 exactly for an empty key or value; 201 exactly for a key the store lacks, with the cache given Put of the pair whether or not Create succeeded; 409 exactly for a stored key; 500 exactly when the lookup fails; each status with its message; every other outcome leaves store and cache unchanged |
| Handlers.SetStepChecked | addKeyValue.go:28-41 | SetKeyValue with Create's error checked: 201 exactly when the key was absent and Create succeeded, and then the pair is stored and cached; 500 exactly when the lookup fails or Create of an absent key fails, and then nothing changes; each status with its message |
| Handlers.SetCreatesCoherently | addKeyValue.go:28-41 | the checked SetKeyValue keeps every cached entry a stored pair; after 201 the store holds the pair and a cache Get returns the value |
| Handlers.SetKeepsCoherenceWhenCreateSucceeds | addKeyValue.go:32-34 | when Create does not fail, SetKeyValue as written is the checked one and keeps the cache coherent with the store |
| Handlers.SetCachesWhatCreateRejected | addKeyValue.go:32-34 | as written, a failed Create on an empty store still answers 201 and leaves a cached pair the store lacks |
| Handlers.SetTwiceConflicts | addKeyValue.go:42-62 | a second SetKeyValue of a key just created answers 409 and changes nothing: there is no update in place |
| Handlers.DeleteStep | deleteKeyValue.go:10-50 | DeleteKeyValue: 400 exactly for an empty key; 404 exactly for a key the store lacks; 200 exactly when the store delete succeeds, and then the key leaves the store and the cache gets DeleteKey; 500 exactly when the lookup fails or the delete of a stored key fails, with "Database error" for the first and "Failed to delete key-value pair" for the second; every other outcome leaves store and cache unchanged |
| Handlers.DeleteCoherently | deleteKeyValue.go:38-49 | DeleteKeyValue keeps every cached entry a stored pair; after 200 the key is in neither the store nor the cache |
| Handlers.GetKeyValue | getKeyValue.go:10-31 | GetKeyValue answers 200 with the stored value exactly when the lookup finds the key; every lookup error answers 404 "Key not found" with no value |
| Handlers.SetThenGetKeyValue | addKeyValue.go:28-41 | after a 201 from the checked SetKeyValue, GetKeyValue finds the key with the new value |
| Handlers.SetThenGetKeyValueAsWritten | addKeyValue.go:32-41 | after a 201 from SetKeyValue as written whose Create did not fail, GetKeyValue finds the key with the new value |
| Handlers.SetThenGetKeyValueCreateFailed | addKeyValue.go:32-41 | after a 201 from SetKeyValue as written whose Create failed, GetKeyValue answers 404: the 201 promised a pair the store does not hold |
| Handlers.DeleteThenGetKeyValue | deleteKeyValue.go:45-49 | after a 200 from DeleteKeyValue, GetKeyValue answers 404 |
| Handlers.CacheHitAgreesWithStore | getKeyValue.go:14 | with the cache coherent, a cache hit carries the value GetKeyValue reads from the store |
| Handlers.HandlersKeepCacheInv | addKeyValue.go:34 | the handlers' cache writes keep unique keys and the bound of capacity 200 |
| Handlers.KvService.constructor | main.go:56 | startServer builds an empty cache of capacity 200 |
| Handlers.KvService.SetKeyValue | addKeyValue.go:10-70 | the handler, with the real cache, yields exactly the response and state of SetStep, keeps the service valid, and only adds fresh objects to the cache's footprint |
| Handlers.KvService.SetKeyValueChecked | addKeyValue.go:28-41 | the corrected handler yields exactly the response and state of SetStepChecked, keeps the service valid, and only adds fresh objects to the cache's footprint |
| Handlers.KvService.DeleteKeyValue | deleteKeyValue.go:10-50 | the handler, store first and cache after, yields exactly the response and state of DeleteStep, keeps the service valid, and only adds fresh objects to the cache's footprint |

## Left out

- The `sync.RWMutex` of `LRUCache` is left out, with its split into a read and a write lock. Concurrency is not modelled. Get's re-check at `cache/main.go:83` is kept as a condition, and it always holds when calls run one at a time.
- Get's read of `n.value` outside the lock (`cache/main.go:75`) is modelled as an ordinary read.
- Database I/O through gorm and MySQL is not modelled. Each call is a map operation, and whether it fails is a parameter. The database's own failure modes are not modelled.
- Logging through the zap logger is left out.
- The Go `error` result of each handler is not modelled, because it is `nil` on every path and the outcome is carried in `StatusCode`. The model returns the response only.
- The request and response protobuf types are left out. So is the gRPC and gateway server start-up in `main.go`, except the status constants and the capacity 200.
- Configuration is left out: DSN building and connection pooling in `config/main.go`.
- The load generators `load.rs` and `load/loadgen.go` are not part of this model.
- Go's `int` is 64-bit. The model's capacity and sizes are unbounded integers. The cache does no arithmetic: it only compares `len(m)` with `capacity` (`cache/main.go:101`), so no overflow can arise there.
- Handlers.DeleteCoherently: the model compares keys exactly. The DSN asks for `charset=utf8` (`config/main.go:15`) and `AutoMigrate` (`config/main.go:45`) keeps MySQL's default collation for the `key_name` index (`model/main.go:6`); that collation ignores case and trailing spaces. So in the program, with ("a", "v") stored and cached, `DeleteKeyValue("A")` answers 200 and deletes the row, yet `DeleteKey("A")` leaves ("a", "v") in the cache, and the cache is no longer coherent with the store. Likewise `SetKeyValue("A", …)` answers 409 there where the model answers 201. The model does not show these.
- The `size:255` limit on `key_name` (`model/main.go:6`) is not modelled; a longer key is one more way for `Create` to fail, which the failure flag covers.
- Cache.Dll.SetValue: the Go code writes `n.value` inline in `Put`. The model does that write through a `Dll` method, so that the ghost contents are updated with it.

## Findings

| source | as written | input that shows it | evidently intended | confidence | as-written member | corrected member |
|---|---|---|---|---|---|---|
| addKeyValue.go:32-34 | The error from `Create` is dropped. The pair is then put in the cache and 201 is returned. | Empty store and cache, key "k", value "v", lookup reports not-found, and `Create` fails. The answer is 201 and the cache holds ("k", "v"), but the store does not. | Check `Create`'s error. On failure answer 500 and leave the cache alone, so every cached pair is a stored pair. | medium; not executed | Handlers.SetCachesWhatCreateRejected | Handlers.SetCreatesCoherently |

# Write-behind entity cache: a Dafny model

This project models the core of a write-behind cache for Java game-server
plugins. The cache keeps entities in a key-value store (Redis) in front of a
relational store (MariaDB):

- **Writes.** A write lands in the fast store at once and the entity's
  identifier is marked dirty.
- **Deletes.** A delete drops the cached value and leaves a tombstone.
- **Reads.** A read consults the tombstone first, then the cache, then the
  table. A row found in the table is cached and marked dirty.
- **Flush.** A periodic flush writes every dirty entity to the node's table
  and deletes every tombstoned row.

The model has these parts:

- **Cache node** (`CacheNode`, together with the durable hooks of `GenericCacheNode`).
- **Node registry** (`CacheService`).
- **Shallow merge-patch of an entity** (`ICacheModel.applyUpdate`).
- **Two facades** (`DatabaseAPI`), a current one and a legacy one. Each routes
  calls by node name and runs a small read-through cache of single table
  cells (`getGenericAsync`/`setGenericAsync`). Each shuts things down in its
  own fixed order.

## Shape of the model

**The stores.**
- `Stores.FastStore` holds the fast store's string keys, their expiries and its
  set keys.
- `Stores.Database` holds the nodes' tables, the rows of the arbitrary tables
  the cell cache addresses, and whether a connection can be had.
- Both are classes whose methods change them in place. A `World` value is a
  snapshot of both.

**The node.** `CacheNodes.CacheNode` runs each operation step by step on the
two store objects, with the same branches, loops and early exits as the
source. The store calls are read as the Redis commands they name (see "Left
out"). Each method is proved to have exactly the effect of a function on
worlds in `NodeSpec`:

- `SetSpec`, `DeleteSpec` and `GetSpec`;
- `SaveAll`/`RemoveEach` and `FlushSpec` for the two loops of `flush`;
- `RowModels`, `MergeRows`, `OverlayCached` and `GetAllSpec` for the two loops
  of `getAll`.

**Iteration order.** The source iterates hash sets, whose order is unknown. The
methods therefore return, as ghost outputs, the order they visited
identifiers in, and the specifications take that order as a parameter.

**What the specifications mean.** The proof modules state it for every order:

- `NodeProofs`: set, get, delete and the dirty/tombstone disjointness.
- `FlushProofs`: a clean flush, a failing flush and a repeated flush.
- `GetAllProofs`: what getAll lists.
- `FacadeProofs`: the cell cache, updates, getList and the shutdown order.

**Per-identifier view.** `Slots` gives each identifier its own view of the
stores: its cached text, its expiry, its dirty and tombstone marks and its row.
Most summaries are stated slot by slot.

**Entities.** An entity is modelled by what the cache observes of it: the
identifier it reports and the record it serializes to (`CacheModel.Model`). An
entity type contributes `identify`, the identifier that its factory plus
`deserialize` report for a record. An entity is taken to keep its record:
`serialize()` after `deserialize(r)` returns exactly `r` (see "Left out").

**JSON text.** Text in either store is classed by what Gson makes of it
(`Json.Text`). `Rendered(r)` stands for every text Gson reads as the object
`r`. That includes the rendering `toString()` produces and also, since Gson
reads leniently, other spellings of the same object. `Raw` is text Gson does
not read as an object. Parsing `Rendered(r)` gives `r`, whitespace-only text
parses to null, and any other text throws (see "Left out" for the other texts
Gson reads as null).

**Blank cached text.** `get` passes what Gson returns to the entity's
`deserialize` (`cache/CacheNode.java:48-49`). For blank cached text that is
null, and the model takes every entity's `deserialize(null)` to throw, so
`get` ends in `Malformed`.

**Errors.** The SQL errors the model raises are:
- no connection can be had (`down`);
- the node's table is missing;
- an identifier is longer than the `VARCHAR(64)` key column.

Exceptions that escape are explicit outcomes: the `Crashed` status of a
flush, `Malformed` from get, and `thrown` flags.

## Where the description and the code differ

The model follows the code in each of these cases:

- **Registry flush isolation.**
  - Description: one node's failure must not keep the others from flushing.
  - Code: `flushAll` calls `flush` on each node in turn
    (`databaseapi/cache/CacheService.java:30`). An exception other than an
    `SQLException` escaping one node's flush ends the loop. `FlushAll` models
    this with its `thrown` flag.
- **A failed table creation.**
  - Description: it stops the node from serving.
  - Code: `createTableIfNotExists` prints the error and the node is
    registered anyway.
- **Dirty set after an error-free flush.**
  - Description: it leaves the dirty set empty.
  - Code: an identifier whose `get` returns null keeps its dirty mark
    (`FlushProofs.CleanFlushEffect`).
- **Legacy shutdown order.**
  - Description: the scheduler, then the final flush, then the connections.
  - Code: the legacy facade also shuts its executor down before the flush.
- **Generic node's upsert hook.**
  - Code: `GenericCacheNode.saveToDatabase(conn, id, json)` does not override
    the abstract `saveToDatabase(conn, model)`, and the node uses `db` where
    its base class has `mariaDBManager`.
  - Model: both are read as "upsert `(getIdentifier(), serialize().toString())`
    on the node's connection".
- **Missing delete hook.**
  - Code: `GenericCacheNode` does not implement `removeFromDatabase`.
  - Model: it is a `DELETE ... WHERE id = ?`.

## Model

| member | source | states |
|---|---|---|
| Json.Parse | src/main/java/de/mecrytv/cache/CacheNode.java:46-50 | text that reads as an object parses to that object, whitespace-only text parses to null, and any other text throws |
| Json.ParseRender | src/main/java/de/mecrytv/cache/CacheNode.java:33-50 | what `set` renders parses back to the same record, and a rendering is never the empty string |
| CacheModel.ApplyUpdate | src/main/java/de/mecrytv/model/ICacheModel.java:10-14 | every patch member holds the patch's value; members absent from the patch keep the current value; the member names are the union; the result is `deserialize` of that record |
| CacheModel.MergedIdempotent | src/main/java/de/mecrytv/model/ICacheModel.java:12 | merging the same patch a second time changes nothing |
| CacheModel.MergedEmptyPatch | src/main/java/de/mecrytv/model/ICacheModel.java:11-13 | an empty patch hands `deserialize` exactly the record `serialize()` produced |
| GenericTable.Upsert | src/main/java/de/mecrytv/cache/GenericCacheNode.java:49-52 | the upsert is accepted exactly when the identifier fits the 64-character key column |
| GenericTable.UpsertStoresRow | src/main/java/de/mecrytv/cache/GenericCacheNode.java:47-54 | after an accepted upsert the row for the id holds the data whether or not it existed; other rows are unchanged; a row is added only for a new id, so there is one row per id |
| GenericTable.UpsertIdempotent | src/main/java/de/mecrytv/cache/GenericCacheNode.java:49-52 | saving the same (id, data) twice equals saving it once |
| GenericTable.CreateTableIdempotent | src/main/java/de/mecrytv/cache/GenericCacheNode.java:56-63 | the table exists afterwards; creating it again changes nothing; every existing table keeps its rows |
| Stores.UpsertCell | src/main/java/de/mecrytv/databaseapi/DatabaseAPI.java:86-94 | the addressed row's column holds the value whether or not the row existed; other rows and other columns of that row are unchanged |
| Stores.Database.SelectCell | src/main/java/de/mecrytv/databaseapi/DatabaseAPI.java:56-65 | the query yields the row exactly when a connection can be had and the row exists |
| Stores.Database.StoreCell | src/main/java/de/mecrytv/databaseapi/DatabaseAPI.java:85-98 | the upsert succeeds exactly when a connection can be had, and only then changes the rows |
| NodeKeys.KeyInjective | src/main/java/de/mecrytv/cache/CacheNode.java:26 | two identifiers with the same cache key within a node are the same identifier |
| NodeKeys.SetKeysDiffer | src/main/java/de/mecrytv/cache/CacheNode.java:27-28 | a node's dirty set key and tombstone set key are different keys |
| NodeKeys.StripKeyRecoversId | src/main/java/de/mecrytv/cache/CacheNode.java:108-110 | removing every occurrence of the prefix from a key gives back the identifier exactly when the identifier does not itself contain the prefix |
| CacheNodes.CacheNode.constructor | src/main/java/de/mecrytv/cache/CacheNode.java:23-31 | the node keeps its name, entity type and the two stores it is given |
| CacheNodes.CacheNode.Set | src/main/java/de/mecrytv/cache/CacheNode.java:33-39 | the stores change as `SetSpec` says: the rendering under the entity's key with no expiry, the tombstone removed, the id marked dirty |
| CacheNodes.CacheNode.Get | src/main/java/de/mecrytv/cache/CacheNode.java:41-59 | the result and the new stores are those of `GetSpec`: a tombstone gives null; then the cached value; then a read-through that calls `set` |
| CacheNodes.CacheNode.Delete | src/main/java/de/mecrytv/cache/CacheNode.java:91-97 | the stores change as `DeleteSpec` says: the key deleted, the dirty mark removed, a tombstone added |
| CacheNodes.CacheNode.Flush | src/main/java/de/mecrytv/cache/CacheNode.java:61-89 | the stores go from the old state to the new as `FlushSpec` says for the visiting orders returned; each order enumerates its snapshot; `thrown` is set exactly when an exception escaped |
| CacheNodes.CacheNode.SaveDirty | src/main/java/de/mecrytv/cache/CacheNode.java:62-75 | the dirty loop over the snapshot has the effect and status of `SavePhase` for the order it visited: nothing on an empty snapshot; an SQL error when no connection can be had; it stops at the first SQL error or escaping exception |
| CacheNodes.CacheNode.SaveDirtyEntry | src/main/java/de/mecrytv/cache/CacheNode.java:65-71 | one iteration does what `SaveStep` says: `get`, then upsert and unmark a found entity |
| CacheNodes.CacheNode.RemoveTombstoned | src/main/java/de/mecrytv/cache/CacheNode.java:77-88 | the tombstone loop has the effect of `RemovePhase` for the order it visited and never throws past its handler |
| CacheNodes.CacheNode.GetAll | src/main/java/de/mecrytv/cache/CacheNode.java:99-119 | the listing and new stores are those of `GetAllSpec` for row and key orders that enumerate the table's rows and the node's cached keys |
| CacheNodes.CacheNode.MergeLive | src/main/java/de/mecrytv/cache/CacheNode.java:102-106 | the first loop keeps the rows whose identifier is not tombstoned, a later row replacing an earlier one |
| CacheNodes.CacheNode.OverlayKeys | src/main/java/de/mecrytv/cache/CacheNode.java:108-116 | the second loop overlays what `get` returns for each cached key's stripped identifier and stops at an exception |
| CacheNodes.CacheNode.GetAllFromDatabase | src/main/java/de/mecrytv/cache/GenericCacheNode.java:18-30 | exactly one entity per row, deserialized from that row's data, in the order the rows are read; every row's entity is listed; none when no connection can be had or the table is missing |
| CacheNodes.CacheNode.LoadFromDatabase | src/main/java/de/mecrytv/cache/GenericCacheNode.java:32-45 | the entity deserialized from the id's row, or null when there is no row, no connection or no table |
| CacheNodes.CacheNode.SaveToDatabase | src/main/java/de/mecrytv/cache/GenericCacheNode.java:47-54 | the upsert succeeds exactly when the table exists and the id fits the key column; then only the id's row changes, and otherwise nothing changes |
| CacheNodes.CacheNode.RemoveFromDatabase | src/main/java/de/mecrytv/cache/CacheNode.java:125 | deleting the id's row succeeds exactly when the table exists, and changes nothing else |
| CacheNodes.CacheNode.CreateTableIfNotExists | src/main/java/de/mecrytv/cache/GenericCacheNode.java:56-63 | the table is created when a connection can be had, and otherwise the error is swallowed and nothing changes |
| Slots.GetSpecSlot | src/main/java/de/mecrytv/cache/CacheNode.java:41-59 | `get` depends only on the identifier's own slot, the connection and the table's existence, and it changes the stores only by the read-through `set` |
| Slots.SaveStepLocal | src/main/java/de/mecrytv/cache/CacheNode.java:65-71 | for coherent entity types: one dirty-loop iteration rewrites only its own identifier's slot, as `SaveSlot` describes, and keeps the entity type coherent with the stores |
| Slots.RemoveStepLocal | src/main/java/de/mecrytv/cache/CacheNode.java:81-84 | one tombstone-loop iteration deletes the row and the tombstone of its identifier only, or fails with nothing changed when the table is missing; for every entity type, and a coherent one stays coherent |
| NodeProofs.SetEffect | src/main/java/de/mecrytv/cache/CacheNode.java:33-39 | after `set(m)` the entity's key holds its rendering with no expiry, and its id is dirty and not tombstoned; no other identifier's slot, string key or set key changes, and the database is untouched |
| NodeProofs.DeleteEffect | src/main/java/de/mecrytv/cache/CacheNode.java:91-97 | after `delete(id)` the key is absent, and the id is not dirty and is tombstoned; nothing else changes, the table in particular |
| NodeProofs.GetTombstoned | src/main/java/de/mecrytv/cache/CacheNode.java:42-44 | a tombstoned id reads as null whatever is cached or stored, and nothing changes |
| NodeProofs.SetThenGet | src/main/java/de/mecrytv/cache/CacheNode.java:33-50 | `set(m)` then `get(m.id)` returns `m`, for an entity whose serialization reports its own identifier |
| NodeProofs.SetThenGetRecord | src/main/java/de/mecrytv/cache/CacheNode.java:33-50 | for every entity, `set(m)` then `get(m.id)` returns the entity deserialized from `m`'s serialized record, and changes nothing more |
| NodeProofs.DeleteThenGet | src/main/java/de/mecrytv/cache/CacheNode.java:91-97 | `delete(id)` then `get(id)` returns null |
| NodeProofs.GetCacheHit | src/main/java/de/mecrytv/cache/CacheNode.java:46-51 | a cache hit returns the entity of the cached record, or throws on text that is not a record, and changes nothing |
| NodeProofs.GetReadThrough | src/main/java/de/mecrytv/cache/CacheNode.java:53-58 | on a miss with a row, the loaded entity is returned and `set` (cached, marked dirty, table untouched); with no row, null and nothing changes |
| NodeProofs.SetKeepsDisjoint | src/main/java/de/mecrytv/cache/CacheNode.java:37-38 | `set` keeps the dirty and tombstone sets disjoint |
| NodeProofs.DeleteKeepsDisjoint | src/main/java/de/mecrytv/cache/CacheNode.java:95-96 | `delete` keeps them disjoint |
| NodeProofs.GetKeepsDisjoint | src/main/java/de/mecrytv/cache/CacheNode.java:53-56 | `get` keeps them disjoint |
| NodeProofs.SetKeepsCoherent | src/main/java/de/mecrytv/cache/CacheNode.java:33-39 | `set` of an entity whose serialization reports its own identifier keeps the stores coherent with the entity type |
| NodeProofs.DeleteKeepsCoherent | src/main/java/de/mecrytv/cache/CacheNode.java:91-97 | `delete` keeps the stores coherent with the entity type |
| NodeProofs.GetKeepsCoherent | src/main/java/de/mecrytv/cache/CacheNode.java:53-56 | `get`, read-through included, keeps the stores coherent with the entity type: the loaded entity is cached under the identifier of the row it came from |
| NodeProofs.SaveStepKeepsDisjoint | src/main/java/de/mecrytv/cache/CacheNode.java:65-70 | one dirty-loop iteration keeps them disjoint |
| NodeProofs.SaveAllKeepsDisjoint | src/main/java/de/mecrytv/cache/CacheNode.java:62-75 | the dirty loop keeps them disjoint |
| NodeProofs.RemoveEachKeepsDisjoint | src/main/java/de/mecrytv/cache/CacheNode.java:77-88 | the tombstone loop keeps them disjoint |
| NodeProofs.FlushKeepsDisjoint | src/main/java/de/mecrytv/cache/CacheNode.java:61-89 | a flush, however it ends, keeps them disjoint |
| FlushProofs.SaveAllLocal | src/main/java/de/mecrytv/cache/CacheNode.java:65-71 | for coherent entity types: the dirty loop over distinct identifiers: it completes exactly when every identifier's own step completes; on completion every visited slot is as `SaveSlot` makes it; otherwise each slot is either unchanged or so made |
| FlushProofs.SavePhaseLocal | src/main/java/de/mecrytv/cache/CacheNode.java:62-75 | for coherent entity types: the first half of flush: with no connection and a non-empty snapshot it fails with nothing changed; otherwise as the dirty loop |
| FlushProofs.RemoveEachLocal | src/main/java/de/mecrytv/cache/CacheNode.java:81-84 | the tombstone loop fails only on a missing table and then changes nothing; otherwise it deletes the row and the tombstone of each visited identifier and nothing else; for every entity type, and a coherent one stays coherent |
| FlushProofs.RemovePhaseLocal | src/main/java/de/mecrytv/cache/CacheNode.java:77-88 | the second half of flush never throws; on an SQL error nothing changed; on completion exactly the snapshot's rows and tombstones are gone; for every entity type, and a coherent one stays coherent |
| FlushProofs.SavePhaseKeepsTombstones | src/main/java/de/mecrytv/cache/CacheNode.java:62-75 | for coherent entity types: the first half of flush neither adds nor clears a tombstone |
| FlushProofs.FlushKeepsCoherent | src/main/java/de/mecrytv/cache/CacheNode.java:61-89 | a flush, however it ends, keeps a coherent entity type coherent: every row and cached record still reports the identifier it sits under |
| FlushProofs.CleanFlushSlots | src/main/java/de/mecrytv/cache/CacheNode.java:61-89 | for coherent entity types: after a flush with no exception every identifier's slot is what `CleanFlushSlot` says, whatever the visiting orders |
| FlushProofs.CleanFlushEffect | src/main/java/de/mecrytv/cache/CacheNode.java:61-89 | after a flush with no exception, a dirty id that `get` finds is upserted with its cached record and is no longer dirty; one it does not find stays dirty; every tombstoned row is gone and no tombstone is left; no other id is touched |
| FlushProofs.SaveAllIdle | src/main/java/de/mecrytv/cache/CacheNode.java:65-67 | a dirty loop over identifiers `get` finds nothing for changes nothing |
| FlushProofs.FlushTwice | src/main/java/de/mecrytv/cache/CacheNode.java:61-89 | a second flush right after a flush with no exception changes nothing, whatever its visiting order |
| FlushProofs.FlushKeepsUnsaved | src/main/java/de/mecrytv/cache/CacheNode.java:61-89 | for coherent entity types: however a flush ends, a dirty id loses its mark only if `get` found its entity and that entity's record is now its row |
| FlushProofs.FlushSqlFailure | src/main/java/de/mecrytv/cache/CacheNode.java:61-89 | for coherent entity types: an SQL error in the dirty loop leaves each snapshot id either handled or exactly as it was, dirty mark included; one in the tombstone loop leaves every row and tombstone in place |
| GetAllProofs.PrefixedKey | src/main/java/de/mecrytv/cache/CacheNode.java:108-110 | a key the node's pattern matches is the key of what follows the prefix |
| GetAllProofs.RowsMerged | src/main/java/de/mecrytv/cache/CacheNode.java:102-106 | for coherent entity types: after the first loop an id is listed exactly when it has a row and no tombstone, with the entity of its row |
| GetAllProofs.OverlayMerged | src/main/java/de/mecrytv/cache/CacheNode.java:108-116 | when no cached identifier contains the node's key prefix: the second loop changes nothing and throws exactly when `get` throws for a visited key; otherwise a cached entity replaces the row's |
| GetAllProofs.GetAllListsWhatGetReturns | src/main/java/de/mecrytv/cache/CacheNode.java:99-119 | getAll changes nothing; it throws exactly when `get` would throw for some id; otherwise it lists exactly the ids `get` finds, with the entity `get` returns, one per id; no tombstoned id appears, and the cached value wins over the row |
| Registry.NamedValuesCount | src/main/java/de/mecrytv/databaseapi/cache/CacheService.java:35 | a registry filing each node under its own name has as many nodes as names |
| Registry.CacheService.constructor | src/main/java/de/mecrytv/databaseapi/cache/CacheService.java:8 | the registry starts empty |
| Registry.CacheService.RegisterNode | src/main/java/de/mecrytv/databaseapi/cache/CacheService.java:25-28 | the node is filed under its name, replacing any earlier node of that name and leaving the other names alone; its table is created when a connection can be had; `getNode` of its name then returns that node |
| Registry.CacheService.GetNode | src/main/java/de/mecrytv/databaseapi/cache/CacheService.java:33 | the node registered under the name (`cacheNodes[name]`), which carries that name and the registry's stores; null exactly when there is none |
| Registry.CacheService.GetAllNodes | src/main/java/de/mecrytv/databaseapi/cache/CacheService.java:35 | exactly the registered nodes, one per name |
| Registry.CacheService.FlushAll | src/main/java/de/mecrytv/databaseapi/cache/CacheService.java:30 | each node is flushed once, in the visiting order, as its `flush` says; all of them unless one throws, which ends the loop |
| FacadeSpec.Matching | src/main/java/de/mecrytv/databaseapi/DatabaseAPI.java:38-42 | an entity is kept exactly when its record holds the string under the member name |
| Facade.DatabaseApi.constructor | src/main/java/de/mecrytv/databaseapi/DatabaseAPI.java:26-34 | the facade starts with an empty registry over its two stores |
| Facade.DatabaseApi.RegisterModel | src/main/java/de/mecrytv/databaseapi/DatabaseAPI.java:117-119 | a new node of that name and entity type is registered over the facade's stores, and its table ensured |
| Facade.DatabaseApi.Get | src/main/java/de/mecrytv/databaseapi/DatabaseAPI.java:111-116 | an unregistered node gives null and no change; otherwise the node's `get` |
| Facade.DatabaseApi.GetAll | src/main/java/de/mecrytv/databaseapi/DatabaseAPI.java:105-110 | an unregistered node gives an empty list and no change; otherwise the node's `getAll` |
| Facade.DatabaseApi.GetList | src/main/java/de/mecrytv/databaseapi/DatabaseAPI.java:37-42 | an unregistered node gives an empty list and no change; otherwise what `getAll` lists, filtered |
| Facade.DatabaseApi.Set | src/main/java/de/mecrytv/databaseapi/DatabaseAPI.java:100-104 | an unregistered node changes nothing; otherwise the node's `set` |
| Facade.DatabaseApi.Delete | src/main/java/de/mecrytv/databaseapi/DatabaseAPI.java:120-126 | an unregistered node changes nothing; otherwise the node's `delete` |
| Facade.DatabaseApi.UpdateAsync | src/main/java/de/mecrytv/databaseapi/DatabaseAPI.java:161-171 | an unregistered node fails with IllegalArgumentException and changes nothing; otherwise the outcome and stores of `UpdateSpec`: `get`, merge the patch, `set` |
| Facade.DatabaseApi.GetGeneric | src/main/java/de/mecrytv/databaseapi/DatabaseAPI.java:43-78 | the result and the stores are those of `GetGenericSpec` |
| Facade.DatabaseApi.SetGeneric | src/main/java/de/mecrytv/databaseapi/DatabaseAPI.java:79-99 | the stores are those of `SetGenericSpec`: cache first, then the upsert, whose failure is only logged |
| Facade.DatabaseApi.Shutdown | src/main/java/de/mecrytv/databaseapi/DatabaseAPI.java:127-144 | the steps taken are `ShutdownSteps` in that order, and the stores change as `flushAll` says |
| LegacyFacade.DatabaseApi.constructor | src/main/java/de/mecrytv/DatabaseAPI.java:23-28 | the facade starts with an empty registry over its two stores |
| LegacyFacade.DatabaseApi.RegisterModel | src/main/java/de/mecrytv/DatabaseAPI.java:84-86 | a new node of that name and entity type is registered, and its table ensured |
| LegacyFacade.DatabaseApi.Get | src/main/java/de/mecrytv/DatabaseAPI.java:77-82 | an unregistered node gives null and no change; otherwise the node's `get` |
| LegacyFacade.DatabaseApi.GetAll | src/main/java/de/mecrytv/DatabaseAPI.java:70-75 | an unregistered node gives an empty list and no change; otherwise the node's `getAll` |
| LegacyFacade.DatabaseApi.Set | src/main/java/de/mecrytv/DatabaseAPI.java:64-68 | an unregistered node changes nothing; otherwise the node's `set` |
| LegacyFacade.DatabaseApi.Delete | src/main/java/de/mecrytv/DatabaseAPI.java:88-94 | an unregistered node changes nothing; otherwise the node's `delete` |
| LegacyFacade.DatabaseApi.GetGeneric | src/main/java/de/mecrytv/DatabaseAPI.java:35-62 | the result and the stores are those of `LegacyGetGenericSpec` |
| LegacyFacade.DatabaseApi.Shutdown | src/main/java/de/mecrytv/DatabaseAPI.java:96-102 | the steps taken are `LegacyShutdownSteps` in that order, and the stores change as `flushAll` says |
| FacadeProofs.SetGenericThenGet | src/main/java/de/mecrytv/databaseapi/DatabaseAPI.java:43-53 | after `setGenericAsync` a read of the same table and identifier returns the written object from the cache, whatever database or columns the read names and whether or not the upsert went through |
| FacadeProofs.SetGenericStores | src/main/java/de/mecrytv/databaseapi/DatabaseAPI.java:79-98 | the cache holds the rendering with no expiry even when the upsert fails; with a connection the cell's column holds it too; no other cell or key changes |
| FacadeProofs.GetGenericHitSkipsDatabase | src/main/java/de/mecrytv/databaseapi/DatabaseAPI.java:46-53 | a non-empty cached value is answered the same whatever the database holds, is never a failure, and changes nothing |
| FacadeProofs.GetGenericWritesOnlyItsKey | src/main/java/de/mecrytv/databaseapi/DatabaseAPI.java:55-76 | only the cell's own key is written, and only on a miss whose row has a non-null column, cached for 1800 seconds; no row, a null column or no connection gives null and no write |
| FacadeProofs.GetGenericTwice | src/main/java/de/mecrytv/databaseapi/DatabaseAPI.java:43-78 | a second read changes nothing and returns what the first returned, except that an unparseable column now reads as null |
| FacadeProofs.LegacyGetGenericTwice | src/main/java/de/mecrytv/DatabaseAPI.java:35-62 | a second read changes nothing and returns what the first returned, except after a null column: that read returned null, but the second returns the empty string the first one cached |
| FacadeProofs.LegacyGetGenericHit | src/main/java/de/mecrytv/DatabaseAPI.java:38-39 | any cached text under the cell's key is returned as it is, whatever the database holds or whether a connection can be had, and nothing is written |
| FacadeProofs.LegacyGetGenericMiss | src/main/java/de/mecrytv/DatabaseAPI.java:41-59 | on a miss: no connection or no row gives null and no write; a row's column is cached under the cell's key for 1800 seconds and returned; a null column is cached as the empty string while null is returned; no other key changes |
| FacadeProofs.LegacyReturnsEmptyCached | src/main/java/de/mecrytv/DatabaseAPI.java:38-39 | a cached empty string is returned as it is, without the database |
| FacadeProofs.LegacyKeyDeterminesDatabase | src/main/java/de/mecrytv/DatabaseAPI.java:36 | the legacy key of a table and identifier determines the database |
| FacadeProofs.GenericKeyIsNodeKey | src/main/java/de/mecrytv/databaseapi/DatabaseAPI.java:44 | a cell key of the current facade is the cache key of a node named `generic`, under that node's prefix |
| FacadeProofs.SetIdempotent | src/main/java/de/mecrytv/cache/CacheNode.java:33-39 | `set` of the same entity twice equals setting it once |
| FacadeProofs.UpdateMissingWritesNothing | src/main/java/de/mecrytv/databaseapi/DatabaseAPI.java:166-167 | when `get` finds nothing the update fails as missing, and when it throws the update fails; either way no `set` happens and nothing changes |
| FacadeProofs.UpdateStoresMerged | src/main/java/de/mecrytv/databaseapi/DatabaseAPI.java:166-169 | a found entity is merged with the patch (patch members overwrite, others stay, names united) and set: the merged record is cached under the identifier it reports, which is dirty and not tombstoned, and `get` of it returns the merged entity |
| FacadeProofs.UpdateTwice | src/main/java/de/mecrytv/databaseapi/DatabaseAPI.java:162-171 | the same update applied twice to an entity whose identifier it keeps equals applying it once |
| FacadeProofs.GetListListsMatches | src/main/java/de/mecrytv/databaseapi/DatabaseAPI.java:38-42 | for coherent entity types and cached identifiers free of the key prefix: `getList` lists exactly the entities `get` returns whose record holds the string under the member name |
| FacadeProofs.ShutdownOrder | src/main/java/de/mecrytv/databaseapi/DatabaseAPI.java:127-144 | the scheduler stops first, forced exactly when it did not terminate in time; the final flush runs exactly once, after the scheduler only; the executor, the store connection and the pool close after it, in that order, unless it threw |
| FacadeProofs.LegacyShutdownOrder | src/main/java/de/mecrytv/DatabaseAPI.java:96-102 | scheduler and executor stop before the final flush, which runs exactly once; the store connection and the pool close after it, in that order, unless it threw |

## Left out

- Redis and MariaDB client classes, connection pools and configuration: the stores are the `FastStore` and `Database` classes, holding maps and sets.
- Asynchronous execution: futures, executors and background upserts run as synchronous steps, so interleavings of concurrent calls are not modelled.
- The race between flush's dirty snapshot and a concurrent `set` is not modelled, because calls are sequential.
- Timing: the 5-minute periodic flush, the 30-second heartbeat and the passing of time. Expiries are recorded in `ttl`, but a key never expires in the model. The scheduler's five-second wait is the `terminated` parameter of `Shutdown`.
- Gson and JSON text: rendering and parsing are the abstract `Json.Text`/`Json.Parse`, and the exact characters of `toString()` are not modelled.
- SQL text: statements are functions on tables, and node names are trusted as table names. The only SQL errors are a missing connection, a missing node table and an over-long identifier. The following errors are not modelled: ones raised in the middle of a result set, a missing cell table or column, and a cell key column that is not a key.
- Store client calls: `CacheNode` calls `sismember`, `keys` and `del`, which the `de.mecrytv.redis.RedisManager` it imports does not declare, and it uses the results of `get` and `smembers` directly, where that class returns futures. The model reads each call as the Redis command it names, completed before the next step.
- Identifier comparison: row identifiers and cell keys are compared as exact strings. The `VARCHAR(64) PRIMARY KEY` column (`cache/GenericCacheNode.java:60`) takes the server's default collation, which ignores case and trailing spaces, so in the source `Alice` and `alice` share one row; the model assumes a binary collation and a server in strict mode.
- One database: the node tables (`tables`) and the rows the cell cache addresses (`cells`) are separate parts of the model's database. A `setGenericAsync` aimed at a node's own table is therefore not seen by that node, and two key columns of one table are treated as independent rows.
- Table rows hold records: a node table's `data` column always holds an object, so a null or unreadable `data` column, which makes `loadFromDatabase` and `getAllFromDatabase` throw past their `SQLException` handlers (`cache/GenericCacheNode.java:25` and `:40`), is not modelled.
- Entities keep their record: `Deserialize(identify, r)` is `Model(identify(r), r)`, so `serialize()` after `deserialize(r)` is taken to return exactly `r`. An entity type with fixed fields, which drops members it does not know or adds defaults, is not modelled. What depends on this: `FacadeProofs.UpdateStoresMerged` (the source caches `model.serialize()` after `applyUpdate`, `databaseapi/DatabaseAPI.java:168-169`), `NodeProofs.GetReadThrough` (the source caches `dbModel.serialize()`, `cache/CacheNode.java:55`) and `FlushProofs.CleanFlushEffect` (the upserted record is the cached one). For such a type these hold for the record the entity serializes to, not the one it was built from.
- Json.Parse: only whitespace-only text is read as null. Gson's lenient reader also returns null for other texts that hold no value, such as a text of comments only or a bare `)]}'` prefix. The model classes these as `Raw` text that throws, so such a column makes the current facade's `getGenericAsync` fail (`CellError`) where the source completes with null, and makes `get` end in `Malformed`.
- Lenient JSON: texts that Gson reads as the same object are one `Rendered` value, so the legacy `getGenericAsync`, which hands back the cached text itself, is modelled up to that reading, not character by character.
- Blank cached text: every entity's `deserialize(null)` is taken to throw, so `get` of blank cached text ends in `Malformed`. An entity type that accepts null is not modelled.
- `CacheService.initialize`: it relies on reflection and class-path scanning.
- The legacy facade's registry (`de.mecrytv.cache.CacheService`) is not part of this model. The registry of the current package stands in for it.
- The nodes of the current facade's package (`de.mecrytv.databaseapi.cache.CacheNode` and its generic node) are not part of this model. Their `get`, `getAllAsync` and `getListAsync` stand as the synchronous `get` and `getAll` of the modelled node.
- Facade.DatabaseApi.GetList: the filter `getListAsync` applies is not part of this model. It is taken to keep the entities whose member holds exactly that string.
- `getInstance`, `getRedis` and the static entry points: the facades are objects whose methods are the entry points.
- Entities as objects: an entity is a value (identifier and record). The in-place mutation by `deserialize` and `applyUpdate` is modelled as returning a new value, so aliasing between a caller's entity and the cached one is not captured.
- The `KEYS` pattern is a plain prefix match, so glob characters in a node name are not modelled.
- The legacy facade caching a null column: the store client is taken to write null as the empty string.
- GetAllProofs.GetAllListsWhatGetReturns is proved only under two conditions. The entity type must report, for every record cached or stored under an identifier, that same identifier (`Slots.Coherent`). No cached identifier may itself contain the node's key prefix, since otherwise stripping the prefix yields another identifier.
- FlushProofs.FlushTwice and FlushProofs.CleanFlushEffect are proved only for coherent entity types (`Slots.Coherent`: every record cached or stored under an identifier reports that identifier). FlushTwice also assumes no identifier is both dirty and tombstoned, which every operation keeps (`NodeProofs`). Coherence itself is kept by `set` of an entity that reports its own identifier, by `delete`, by `get` and by every flush (`NodeProofs.SetKeepsCoherent`, `NodeProofs.DeleteKeepsCoherent`, `NodeProofs.GetKeepsCoherent`, `FlushProofs.FlushKeepsCoherent`). For an entity type that is not coherent, `get`'s read-through and flush's upsert write to another identifier's slot and row, and the members below say nothing about it.
- Slots.SaveStepLocal is proved only for coherent entity types (see above).
- FlushProofs.SaveAllLocal is proved only for coherent entity types (see above).
- FlushProofs.SavePhaseLocal is proved only for coherent entity types (see above).
- FlushProofs.SavePhaseKeepsTombstones is proved only for coherent entity types (see above).
- FlushProofs.CleanFlushSlots is proved only for coherent entity types (see above).
- FlushProofs.FlushKeepsUnsaved is proved only for coherent entity types (see above).
- FlushProofs.FlushSqlFailure is proved only for coherent entity types (see above).
- GetAllProofs.RowsMerged is proved only for coherent entity types (see above), since getAll keys each row's entity by the identifier it reports.
- GetAllProofs.OverlayMerged is proved only when no cached identifier contains the node's key prefix, since otherwise stripping the prefix from its key yields another identifier.
- FacadeProofs.GetListListsMatches is proved only under the two conditions of GetAllProofs.GetAllListsWhatGetReturns, on which it rests.
- Registry.CacheService.FlushAll: all registered nodes are taken to share the registry's two stores, as every node built by `registerModel` does. The frame of a node built otherwise is not modelled.

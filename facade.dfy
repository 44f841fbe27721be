/**
 * The current facade (de.mecrytv.databaseapi.DatabaseAPI), with every
 * asynchronous call run to completion in place. It owns one fast store, one
 * database and the node registry; calls naming a node go to the registered
 * node, and a name nobody registered yields null, an empty list or nothing.
 */
module Facade {
  import opened Json
  import opened CacheModel
  import opened GenericTable
  import opened Stores
  import opened NodeSpec
  import opened CacheNodes
  import opened Registry
  import opened FacadeSpec

  class DatabaseApi {
    const store: FastStore
    const db: Database
    const cacheService: CacheService
    /** What `shutdown` has done so far. */
    var lifecycle: seq<Event>

    ghost predicate Valid()
      reads this, cacheService
    {
      cacheService.Valid() && cacheService.store == store && cacheService.db == db
    }

    /** The connections are parameters; the periodic flush and the heartbeat are not modelled. */
    constructor (store: FastStore, db: Database)
      ensures Valid() && this.store == store && this.db == db
      ensures fresh(cacheService) && cacheService.cacheNodes == map[] && lifecycle == []
    {
      this.store, this.db := store, db;
      cacheService := new CacheService(store, db);
      lifecycle := [];
    }

    /** `registerModel(name, factory)`: a new generic node of that name, registered. */
    method RegisterModel(name: string, identify: IdOf)
      requires Valid()
      modifies cacheService, db
      ensures Valid()
      ensures name in cacheService.cacheNodes && fresh(cacheService.cacheNodes[name])
      ensures cacheService.cacheNodes[name].name == name && cacheService.cacheNodes[name].identify == identify
      ensures forall other :: other != name ==>
        (other in cacheService.cacheNodes <==> other in old(cacheService.cacheNodes))
        && (other in cacheService.cacheNodes ==> cacheService.cacheNodes[other] == old(cacheService.cacheNodes[other]))
      ensures db.tables == if old(db.down) then old(db.tables) else CreateTable(old(db.tables), name)
      ensures db.cells == old(db.cells) && db.down == old(db.down)
    {
      var node := new CacheNode(name, identify, store, db);
      cacheService.RegisterNode(node);
    }

    /** `get(node, id)`. */
    method Get(node: string, id: string) returns (r: Fetched)
      requires Valid()
      modifies store
      ensures node !in cacheService.cacheNodes ==> r == NotFound && unchanged(store)
      ensures node in cacheService.cacheNodes ==>
        Got(r, WorldOf(store, db)) == GetSpec(old(WorldOf(store, db)), node, cacheService.cacheNodes[node].identify, id)
    {
      var cacheNode := cacheService.GetNode(node);
      if cacheNode == null {
        return NotFound;
      }
      r := cacheNode.Get(id);
    }

    /** `getAll(node)`, the list being keyed by identifier. */
    method GetAll(node: string) returns (models: map<string, Model>, thrown: bool,
                                         ghost rowOrder: seq<string>, ghost keyOrder: seq<string>)
      requires Valid()
      modifies store
      ensures node !in cacheService.cacheNodes ==> models == map[] && !thrown && unchanged(store)
      ensures node in cacheService.cacheNodes ==>
        var before := old(WorldOf(store, db));
        && IsEnumeration(rowOrder, Visible(before, node).Keys)
        && IsEnumeration(keyOrder, CachedKeys(before, node))
        && GetAllSpec(before, node, cacheService.cacheNodes[node].identify, rowOrder, keyOrder)
           == Listing(models, WorldOf(store, db), thrown)
    {
      var cacheNode := cacheService.GetNode(node);
      if cacheNode == null {
        return map[], false, [], [];
      }
      models, thrown, rowOrder, keyOrder := cacheNode.GetAll();
    }

    /** `getList(node, jsonKey, value)`: what `getAll` lists, filtered by one member. */
    method GetList(node: string, jsonKey: string, value: string) returns (models: map<string, Model>, thrown: bool,
                                                                         ghost rowOrder: seq<string>, ghost keyOrder: seq<string>)
      requires Valid()
      modifies store
      ensures node !in cacheService.cacheNodes ==> models == map[] && !thrown && unchanged(store)
      ensures node in cacheService.cacheNodes ==>
        var before := old(WorldOf(store, db));
        var l := GetAllSpec(before, node, cacheService.cacheNodes[node].identify, rowOrder, keyOrder);
        && IsEnumeration(rowOrder, Visible(before, node).Keys)
        && IsEnumeration(keyOrder, CachedKeys(before, node))
        && WorldOf(store, db) == l.world && thrown == l.thrown
        && models == if thrown then map[] else Matching(l.merged, jsonKey, value)
    {
      var cacheNode := cacheService.GetNode(node);
      if cacheNode == null {
        return map[], false, [], [];
      }
      var listed;
      listed, thrown, rowOrder, keyOrder := cacheNode.GetAll();
      models := if thrown then map[] else Matching(listed, jsonKey, value);
    }

    /** `set(node, model)`. */
    method Set(node: string, model: Model)
      requires Valid()
      modifies store
      ensures node !in cacheService.cacheNodes ==> unchanged(store)
      ensures node in cacheService.cacheNodes ==> WorldOf(store, db) == SetSpec(old(WorldOf(store, db)), node, model)
    {
      var cacheNode := cacheService.GetNode(node);
      if cacheNode != null {
        cacheNode.Set(model);
      }
    }

    /** `delete(node, id)`. */
    method Delete(node: string, id: string)
      requires Valid()
      modifies store
      ensures node !in cacheService.cacheNodes ==> unchanged(store)
      ensures node in cacheService.cacheNodes ==> WorldOf(store, db) == DeleteSpec(old(WorldOf(store, db)), node, id)
    {
      var cacheNode := cacheService.GetNode(node);
      if cacheNode != null {
        cacheNode.Delete(id);
      }
    }

    /** `updateAsync(node, id, updates)`: `get`, then `applyUpdate`, then `set`. */
    method UpdateAsync(node: string, id: string, updates: Record) returns (outcome: Update)
      requires Valid()
      modifies store
      ensures node !in cacheService.cacheNodes ==> outcome == UnknownNode && unchanged(store)
      ensures node in cacheService.cacheNodes ==>
        UpdateRun(outcome, WorldOf(store, db))
          == UpdateSpec(old(WorldOf(store, db)), node, cacheService.cacheNodes[node].identify, id, updates)
    {
      var cacheNode := cacheService.GetNode(node);
      if cacheNode == null {
        return UnknownNode;
      }
      var got := cacheNode.Get(id);
      match got
      case Malformed =>
        outcome := UpdateFailed;
      case NotFound =>
        outcome := UnknownModel;
      case Found(model) =>
        var updated := ApplyUpdate(cacheNode.identify, model, updates);
        cacheNode.Set(updated);
        outcome := Updated(updated);
    }

    /** `getGenericAsync(database, table, keyColumn, valueColumn, identifier)`. */
    method GetGeneric(database: string, table: string, keyColumn: string, valueColumn: string, identifier: string)
      returns (r: CellValue)
      modifies store
      ensures CellRead(r, WorldOf(store, db))
        == GetGenericSpec(old(WorldOf(store, db)), database, table, keyColumn, valueColumn, identifier)
    {
      var redisKey := GenericKey(table, identifier);
      var cached := store.Get(redisKey);
      if cached.Some? && !IsEmptyText(cached.value) {
        match Parse(cached.value)
        case Parsed(record) =>
          return CellObject(record);
        case _ =>
          return CellNull;
      }
      var row := db.SelectCell(Cell(database, table, keyColumn, identifier));
      if row.Some? && valueColumn in row.value {
        var result := row.value[valueColumn];
        store.SetEx(redisKey, CellExpiry, result);
        match Parse(result)
        case Parsed(record) =>
          return CellObject(record);
        case Blank =>
          return CellNull;
        case Invalid =>
          return CellError;
      }
      return CellNull;
    }

    /** `setGenericAsync(database, table, keyColumn, valueColumn, identifier, data)`. */
    method SetGeneric(database: string, table: string, keyColumn: string, valueColumn: string, identifier: string,
                      data: Record)
      modifies store, db
      ensures WorldOf(store, db)
        == SetGenericSpec(old(WorldOf(store, db)), database, table, keyColumn, valueColumn, identifier, data)
    {
      var redisKey := GenericKey(table, identifier);
      var jsonString := Render(data);
      store.Set(redisKey, jsonString);
      var stored := db.StoreCell(Cell(database, table, keyColumn, identifier), valueColumn, jsonString);
    }

    /**
     * `shutdown()`: stop the scheduler (forcing it when it did not terminate
     * within five seconds), flush every node once, then stop the executor and
     * close both connections. An exception escaping the flush skips the rest.
     */
    method Shutdown(terminated: bool) returns (thrown: bool, ghost order: seq<string>, ghost trace: seq<World>,
                                               ghost saveOrders: seq<seq<string>>, ghost removeOrders: seq<seq<string>>)
      requires Valid()
      modifies this, store, db
      ensures Valid()
      ensures lifecycle == old(lifecycle) + ShutdownSteps(terminated, thrown)
      ensures FlushedAll(cacheService.cacheNodes, old(WorldOf(store, db)), WorldOf(store, db),
                         thrown, order, trace, saveOrders, removeOrders)
    {
      lifecycle := lifecycle + [SchedulerStopped];
      if !terminated {
        lifecycle := lifecycle + [SchedulerForced];
      }
      lifecycle := lifecycle + [FinalFlush];
      thrown, order, trace, saveOrders, removeOrders := cacheService.FlushAll();
      if thrown {
        return;
      }
      lifecycle := lifecycle + [ExecutorStopped, StoreDisconnected, PoolClosed];
    }
  }
}

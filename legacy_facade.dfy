/**
 * The legacy facade (de.mecrytv.DatabaseAPI), with every asynchronous call run
 * to completion in place. Its routing is the current facade's without
 * `getList` and `updateAsync`; its cell cache is read-only and keys cells by
 * database as well; it shuts the executor down before the final flush.
 */
module LegacyFacade {
  import opened Json
  import opened CacheModel
  import opened GenericTable
  import opened Stores
  import opened NodeSpec
  import opened CacheNodes
  import opened Registry
  import opened FacadeSpec

  class DatabaseApi {
    const store: FastStore
    const db: Database
    const cacheService: CacheService
    /** What `shutdown` has done so far. */
    var lifecycle: seq<Event>

    ghost predicate Valid()
      reads this, cacheService
    {
      cacheService.Valid() && cacheService.store == store && cacheService.db == db
    }

    /** The connections are parameters; the periodic flush is not modelled. */
    constructor (store: FastStore, db: Database)
      ensures Valid() && this.store == store && this.db == db
      ensures fresh(cacheService) && cacheService.cacheNodes == map[] && lifecycle == []
    {
      this.store, this.db := store, db;
      cacheService := new CacheService(store, db);
      lifecycle := [];
    }

    /** `registerModel(name, factory)`: a new generic node of that name, registered. */
    method RegisterModel(name: string, identify: IdOf)
      requires Valid()
      modifies cacheService, db
      ensures Valid()
      ensures name in cacheService.cacheNodes && fresh(cacheService.cacheNodes[name])
      ensures cacheService.cacheNodes[name].name == name && cacheService.cacheNodes[name].identify == identify
      ensures forall other :: other != name ==>
        (other in cacheService.cacheNodes <==> other in old(cacheService.cacheNodes))
        && (other in cacheService.cacheNodes ==> cacheService.cacheNodes[other] == old(cacheService.cacheNodes[other]))
      ensures db.tables == if old(db.down) then old(db.tables) else CreateTable(old(db.tables), name)
      ensures db.cells == old(db.cells) && db.down == old(db.down)
    {
      var node := new CacheNode(name, identify, store, db);
      cacheService.RegisterNode(node);
    }

    /** `get(node, id)`. */
    method Get(node: string, id: string) returns (r: Fetched)
      requires Valid()
      modifies store
      ensures node !in cacheService.cacheNodes ==> r == NotFound && unchanged(store)
      ensures node in cacheService.cacheNodes ==>
        Got(r, WorldOf(store, db)) == GetSpec(old(WorldOf(store, db)), node, cacheService.cacheNodes[node].identify, id)
    {
      var cacheNode := cacheService.GetNode(node);
      if cacheNode == null {
        return NotFound;
      }
      r := cacheNode.Get(id);
    }

    /** `getAll(node)`, the list being keyed by identifier. */
    method GetAll(node: string) returns (models: map<string, Model>, thrown: bool,
                                         ghost rowOrder: seq<string>, ghost keyOrder: seq<string>)
      requires Valid()
      modifies store
      ensures node !in cacheService.cacheNodes ==> models == map[] && !thrown && unchanged(store)
      ensures node in cacheService.cacheNodes ==>
        var before := old(WorldOf(store, db));
        && IsEnumeration(rowOrder, Visible(before, node).Keys)
        && IsEnumeration(keyOrder, CachedKeys(before, node))
        && GetAllSpec(before, node, cacheService.cacheNodes[node].identify, rowOrder, keyOrder)
           == Listing(models, WorldOf(store, db), thrown)
    {
      var cacheNode := cacheService.GetNode(node);
      if cacheNode == null {
        return map[], false, [], [];
      }
      models, thrown, rowOrder, keyOrder := cacheNode.GetAll();
    }

    /** `set(node, model)`. */
    method Set(node: string, model: Model)
      requires Valid()
      modifies store
      ensures node !in cacheService.cacheNodes ==> unchanged(store)
      ensures node in cacheService.cacheNodes ==> WorldOf(store, db) == SetSpec(old(WorldOf(store, db)), node, model)
    {
      var cacheNode := cacheService.GetNode(node);
      if cacheNode != null {
        cacheNode.Set(model);
      }
    }

    /** `delete(node, id)`. */
    method Delete(node: string, id: string)
      requires Valid()
      modifies store
      ensures node !in cacheService.cacheNodes ==> unchanged(store)
      ensures node in cacheService.cacheNodes ==> WorldOf(store, db) == DeleteSpec(old(WorldOf(store, db)), node, id)
    {
      var cacheNode := cacheService.GetNode(node);
      if cacheNode != null {
        cacheNode.Delete(id);
      }
    }

    /** `getGenericAsync(database, table, keyColumn, valueColumn, identifier)`, returning the column's text. */
    method GetGeneric(database: string, table: string, keyColumn: string, valueColumn: string, identifier: string)
      returns (r: Option<Text>)
      modifies store
      ensures LegacyRead(r, WorldOf(store, db))
        == LegacyGetGenericSpec(old(WorldOf(store, db)), database, table, keyColumn, valueColumn, identifier)
    {
      var redisKey := LegacyGenericKey(database, table, identifier);
      var cached := store.Get(redisKey);
      if cached.Some? {
        return cached;
      }
      var row := db.SelectCell(Cell(database, table, keyColumn, identifier));
      if row.Some? {
        r := if valueColumn in row.value then Some(row.value[valueColumn]) else None;
        store.SetEx(redisKey, CellExpiry, if r.Some? then r.value else Raw(""));
        return r;
      }
      return None;
    }

    /**
     * `shutdown()`: stop the scheduler and the executor without waiting, flush
     * every node once, then close both connections. An exception escaping the
     * flush skips the rest.
     */
    method Shutdown() returns (thrown: bool, ghost order: seq<string>, ghost trace: seq<World>,
                               ghost saveOrders: seq<seq<string>>, ghost removeOrders: seq<seq<string>>)
      requires Valid()
      modifies this, store, db
      ensures Valid()
      ensures lifecycle == old(lifecycle) + LegacyShutdownSteps(thrown)
      ensures FlushedAll(cacheService.cacheNodes, old(WorldOf(store, db)), WorldOf(store, db),
                         thrown, order, trace, saveOrders, removeOrders)
    {
      lifecycle := lifecycle + [SchedulerStopped, ExecutorStopped, FinalFlush];
      thrown, order, trace, saveOrders, removeOrders := cacheService.FlushAll();
      if thrown {
        return;
      }
      lifecycle := lifecycle + [StoreDisconnected, PoolClosed];
    }
  }
}

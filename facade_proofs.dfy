/**
 * What the facades' own logic means: the cell cache of each facade (what is
 * cached, when the database is read, what a second read sees, which cells
 * share a key), `updateAsync`, `getList`, and the shutdown order.
 */
module FacadeProofs {
  import opened Json
  import opened CacheModel
  import opened Stores
  import opened NodeKeys
  import opened NodeSpec
  import opened Slots
  import opened NodeProofs
  import opened GetAllProofs
  import opened FacadeSpec

  /**
   * `setGenericAsync` then `getGenericAsync` of the same table and identifier
   * returns the written object from the cache, whatever database, key column
   * or value column the read names and whether or not the upsert went
   * through: the current facade's key leaves the database out, so two
   * databases with a table of the same name share their cached cells.
   */
  lemma SetGenericThenGet(w: World, database: string, table: string, keyColumn: string, valueColumn: string,
                          identifier: string, data: Record, readDatabase: string, readKeyColumn: string, readValueColumn: string)
    ensures var after := SetGenericSpec(w, database, table, keyColumn, valueColumn, identifier, data);
      GetGenericSpec(after, readDatabase, table, readKeyColumn, readValueColumn, identifier) == CellRead(CellObject(data), after)
  {
    ParseRender(data);
  }

  /**
   * `setGenericAsync` caches the rendering with no expiry even when the
   * upsert fails; with a connection the addressed cell's column holds it too,
   * and no other cell and no other key of the fast store changes.
   */
  lemma SetGenericStores(w: World, database: string, table: string, keyColumn: string, valueColumn: string,
                         identifier: string, data: Record)
    ensures var after := SetGenericSpec(w, database, table, keyColumn, valueColumn, identifier, data);
      var key := GenericKey(table, identifier);
      var cell := Cell(database, table, keyColumn, identifier);
      && Lookup(after.values, key) == Some(Render(data)) && key !in after.ttl
      && (forall k :: k != key ==> Lookup(after.values, k) == Lookup(w.values, k) && Lookup(after.ttl, k) == Lookup(w.ttl, k))
      && after.sets == w.sets && after.tables == w.tables && after.down == w.down
      && (w.down ==> after.cells == w.cells)
      && (!w.down ==> FindRow(after, cell).Some? && Lookup(FindRow(after, cell).value, valueColumn) == Some(Render(data)))
      && (forall c :: c != cell ==> Lookup(after.cells, c) == Lookup(w.cells, c))
  {
    var after := SetGenericSpec(w, database, table, keyColumn, valueColumn, identifier, data);
    var cell := Cell(database, table, keyColumn, identifier);
    forall c | c != cell
      ensures Lookup(after.cells, c) == Lookup(w.cells, c)
    {
    }
  }

  /**
   * A cached value that is not empty is answered without the database: the
   * result is the same whatever the tables hold and whether a connection can
   * be had, it is never a failure, and nothing changes.
   */
  lemma GetGenericHitSkipsDatabase(w: World, cells: map<Cell, Row>, down: bool, database: string, table: string,
                                   keyColumn: string, valueColumn: string, identifier: string)
    requires GenericKey(table, identifier) in w.values && !IsEmptyText(w.values[GenericKey(table, identifier)])
    ensures var r := GetGenericSpec(w, database, table, keyColumn, valueColumn, identifier);
      var other := w.(cells := cells, down := down);
      && r.world == w && !r.result.CellError?
      && GetGenericSpec(other, database, table, keyColumn, valueColumn, identifier) == CellRead(r.result, other)
  {
  }

  /**
   * `getGenericAsync` writes nothing but its own key, and that only on a miss
   * whose row has a non-null column, which is then cached for 30 minutes; no
   * row, a null column or a failed connection leave everything as it was.
   */
  lemma GetGenericWritesOnlyItsKey(w: World, database: string, table: string, keyColumn: string, valueColumn: string,
                                   identifier: string)
    ensures var r := GetGenericSpec(w, database, table, keyColumn, valueColumn, identifier);
      var key := GenericKey(table, identifier);
      var row := FindRow(w, Cell(database, table, keyColumn, identifier));
      && r.world.sets == w.sets && r.world.tables == w.tables && r.world.cells == w.cells && r.world.down == w.down
      && (forall k :: k != key ==> Lookup(r.world.values, k) == Lookup(w.values, k) && Lookup(r.world.ttl, k) == Lookup(w.ttl, k))
      && (r.world != w ==>
            && (key !in w.values || IsEmptyText(w.values[key]))
            && row.Some? && valueColumn in row.value
            && Lookup(r.world.values, key) == Some(row.value[valueColumn])
            && Lookup(r.world.ttl, key) == Some(CellExpiry))
      && (row.None? || valueColumn !in row.value ==> r.world == w)
      && ((key !in w.values || IsEmptyText(w.values[key])) && (row.None? || valueColumn !in row.value) ==> r.result == CellNull)
  {
  }

  /**
   * Reading the same cell twice: the second read changes nothing and returns
   * what the first returned, except that a column the first read could not
   * parse (and cached all the same) now reads as null.
   */
  lemma GetGenericTwice(w: World, database: string, table: string, keyColumn: string, valueColumn: string,
                        identifier: string)
    ensures var first := GetGenericSpec(w, database, table, keyColumn, valueColumn, identifier);
      var second := GetGenericSpec(first.world, database, table, keyColumn, valueColumn, identifier);
      && second.world == first.world
      && second.result == if first.result.CellError? then CellNull else first.result
  {
    var key := GenericKey(table, identifier);
    var first := GetGenericSpec(w, database, table, keyColumn, valueColumn, identifier);
    if first.world != w {
      var text := first.world.values[key];
      if IsEmptyText(text) {
        assert CacheFor(first.world, key, text, CellExpiry) == first.world;
      }
    }
  }

  /**
   * Reading the same cell twice with the legacy facade: the second read
   * changes nothing and returns what the first returned, except after a null
   * column, which the first read returned as null but cached as the empty
   * string that the second read returns.
   */
  lemma LegacyGetGenericTwice(w: World, database: string, table: string, keyColumn: string, valueColumn: string,
                              identifier: string)
    ensures var first := LegacyGetGenericSpec(w, database, table, keyColumn, valueColumn, identifier);
      var second := LegacyGetGenericSpec(first.world, database, table, keyColumn, valueColumn, identifier);
      var row := FindRow(w, Cell(database, table, keyColumn, identifier));
      && second.world == first.world
      && (second.result == first.result <==> first.world == w || valueColumn in row.value)
      && (second.result != first.result ==> first.result.None? && second.result == Some(Raw("")))
  {
  }

  /**
   * A legacy read whose key is cached returns the cached text as it is,
   * whatever it holds, and neither reads the database nor writes anything:
   * the result is the same for every database state.
   */
  lemma LegacyGetGenericHit(w: World, cells: map<Cell, Row>, down: bool, database: string, table: string,
                            keyColumn: string, valueColumn: string, identifier: string)
    requires LegacyGenericKey(database, table, identifier) in w.values
    ensures var other := w.(cells := cells, down := down);
      LegacyGetGenericSpec(other, database, table, keyColumn, valueColumn, identifier)
        == LegacyRead(Some(w.values[LegacyGenericKey(database, table, identifier)]), other)
  {
  }

  /**
   * A legacy read whose key is not cached: with no connection or no row it
   * returns null and writes nothing; with a row it caches the column for 1800
   * seconds and returns it, a null column being cached as the empty string
   * while null is returned. No other key is touched.
   */
  lemma LegacyGetGenericMiss(w: World, database: string, table: string, keyColumn: string, valueColumn: string,
                             identifier: string)
    requires LegacyGenericKey(database, table, identifier) !in w.values
    ensures var key := LegacyGenericKey(database, table, identifier);
      var cell := Cell(database, table, keyColumn, identifier);
      var r := LegacyGetGenericSpec(w, database, table, keyColumn, valueColumn, identifier);
      && (w.down || cell !in w.cells ==> r == LegacyRead(None, w))
      && (!w.down && cell in w.cells && valueColumn in w.cells[cell] ==>
            && r.result == Some(w.cells[cell][valueColumn])
            && r.world == w.(values := w.values[key := w.cells[cell][valueColumn]], ttl := w.ttl[key := 1800]))
      && (!w.down && cell in w.cells && valueColumn !in w.cells[cell] ==>
            && r.result == None
            && r.world == w.(values := w.values[key := Raw("")], ttl := w.ttl[key := 1800]))
  {
  }

  /**
   * The legacy facade returns a cached value as it is, the empty string
   * included, without looking at the database.
   */
  lemma LegacyReturnsEmptyCached(w: World, cells: map<Cell, Row>, down: bool, database: string, table: string,
                                 keyColumn: string, valueColumn: string, identifier: string)
    requires Lookup(w.values, LegacyGenericKey(database, table, identifier)) == Some(Raw(""))
    ensures var other := w.(cells := cells, down := down);
      LegacyGetGenericSpec(other, database, table, keyColumn, valueColumn, identifier) == LegacyRead(Some(Raw("")), other)
  {
  }

  /**
   * The legacy key keeps databases apart: the same table and identifier in
   * two databases have two keys.
   */
  lemma LegacyKeyDeterminesDatabase(database: string, otherDatabase: string, table: string, identifier: string)
    requires LegacyGenericKey(database, table, identifier) == LegacyGenericKey(otherDatabase, table, identifier)
    ensures database == otherDatabase
  {
    var key := LegacyGenericKey(database, table, identifier);
    var n := |GenericPrefix|;
    assert |database| == |otherDatabase|;
    assert database == key[n..n + |database|];
    assert otherDatabase == key[n..n + |otherDatabase|];
  }

  /**
   * The current facade's cell keys lie in the key space of a node named
   * `generic`: its cached entities and the cached cells of any table share
   * keys, and its `getAll` sees the cells' keys.
   */
  lemma GenericKeyIsNodeKey(table: string, identifier: string)
    ensures GenericKey(table, identifier) == Key("generic", table + ":" + identifier)
    ensures Prefix("generic") <= GenericKey(table, identifier)
  {
    assert GenericKey(table, identifier) == Prefix("generic") + (table + ":" + identifier);
  }

  /** `set` of the same entity twice equals setting it once. */
  lemma SetIdempotent(w: World, node: string, m: Model)
    ensures SetSpec(SetSpec(w, node, m), node, m) == SetSpec(w, node, m)
  {
    var w1 := SetSpec(w, node, m);
    SetKeysDiffer(node);
    RemoveAbsentMember(w1.sets, DeletedKey(node), m.id);
    var s := RemoveMember(w1.sets, DeletedKey(node), m.id);
    assert AddMember(s, DirtyKey(node), m.id) == w1.sets;
    var key := Key(node, m.id);
    assert w1.values[key := Render(m.data)] == w1.values;
    assert w1.ttl - {key} == w1.ttl;
  }

  /**
   * `updateAsync` for an identifier `get` does not find, or whose cached text
   * throws, performs no `set` and changes nothing.
   */
  lemma UpdateMissingWritesNothing(w: World, node: string, identify: IdOf, id: string, updates: Record)
    requires !GetSpec(w, node, identify, id).result.Found?
    ensures UpdateSpec(w, node, identify, id, updates).world == w
    ensures UpdateSpec(w, node, identify, id, updates).outcome
      == if GetSpec(w, node, identify, id).result.NotFound? then UnknownModel else UpdateFailed
  {
    GetSpecSlot(w, node, identify, id);
  }

  /**
   * `updateAsync` on an entity `get` finds: the patch is merged into its
   * record (patch members overwrite, others stay, the member names are the
   * union), the merged record is cached under the identifier it reports,
   * which is dirty and not tombstoned, and `get` of that identifier returns
   * the merged entity.
   */
  lemma UpdateStoresMerged(w: World, node: string, identify: IdOf, id: string, updates: Record)
    requires GetSpec(w, node, identify, id).result.Found?
    ensures var m := GetSpec(w, node, identify, id).result.model;
      var run := UpdateSpec(w, node, identify, id, updates);
      && run.outcome.Updated?
      && var u := run.outcome.model;
      && u.data.Keys == m.data.Keys + updates.Keys
      && (forall k :: k in updates ==> u.data[k] == updates[k])
      && (forall k :: k in m.data && k !in updates ==> u.data[k] == m.data[k])
      && u.id == identify(u.data)
      && Lookup(run.world.values, Key(node, u.id)) == Some(Render(u.data))
      && u.id in Dirty(run.world, node) && u.id !in Deleted(run.world, node)
      && GetSpec(run.world, node, identify, u.id) == Got(Found(u), run.world)
  {
    var g := GetSpec(w, node, identify, id);
    var u := Deserialize(identify, Merged(g.result.model.data, updates));
    SetThenGet(g.world, node, identify, u);
    SetKeysDiffer(node);
  }

  /**
   * The same update applied twice to an entity whose identifier it keeps
   * equals the update applied once.
   */
  lemma UpdateTwice(w: World, node: string, identify: IdOf, id: string, updates: Record)
    requires UpdateSpec(w, node, identify, id, updates).outcome.Updated?
    requires UpdateSpec(w, node, identify, id, updates).outcome.model.id == id
    ensures var first := UpdateSpec(w, node, identify, id, updates);
      UpdateSpec(first.world, node, identify, id, updates) == first
  {
    var g := GetSpec(w, node, identify, id);
    var first := UpdateSpec(w, node, identify, id, updates);
    var u := first.outcome.model;
    SetThenGet(g.world, node, identify, u);
    MergedIdempotent(g.result.model.data, updates);
    SetIdempotent(g.world, node, u);
  }

  /**
   * `getList` on a node, under the conditions of getAll's summary: it lists
   * exactly the entities `get` returns whose record holds the string `value`
   * under `jsonKey`.
   */
  lemma GetListListsMatches(w: World, node: string, identify: IdOf, rowOrder: seq<string>, keyOrder: seq<string>,
                            jsonKey: string, value: string)
    requires Coherent(w, node, identify) && NoNestedPrefix(w, node)
    requires IsEnumeration(rowOrder, Visible(w, node).Keys)
    requires IsEnumeration(keyOrder, CachedKeys(w, node))
    requires !GetAllSpec(w, node, identify, rowOrder, keyOrder).thrown
    ensures var listed := Matching(GetAllSpec(w, node, identify, rowOrder, keyOrder).merged, jsonKey, value);
      forall id :: id in listed <==>
        var g := GetSpec(w, node, identify, id).result;
        g.Found? && jsonKey in g.model.data && g.model.data[jsonKey] == Str(value)
  {
    GetAllListsWhatGetReturns(w, node, identify, rowOrder, keyOrder);
  }

  /**
   * The current facade's shutdown: the scheduler stops first (forced when it
   * did not terminate in time), so no periodic flush runs beside the final
   * one; the final flush runs exactly once, after it only; and the executor
   * and both connections are closed after the flush, unless it threw.
   */
  lemma ShutdownOrder(terminated: bool, thrown: bool)
    ensures ShutdownSteps(terminated, thrown)[0] == SchedulerStopped
    ensures SchedulerForced in ShutdownSteps(terminated, thrown) <==> !terminated
    ensures multiset(ShutdownSteps(terminated, thrown))[FinalFlush] == 1
    ensures var e := ShutdownSteps(terminated, thrown);
      forall i :: 0 <= i < |e| && e[i] == FinalFlush ==>
        forall j :: 0 <= j < i ==> e[j] == SchedulerStopped || e[j] == SchedulerForced
    ensures var e := ShutdownSteps(terminated, thrown);
      forall i :: 0 <= i < |e| && e[i] == FinalFlush ==>
        e[i + 1..] == if thrown then [] else [ExecutorStopped, StoreDisconnected, PoolClosed]
  {
  }

  /**
   * The legacy facade's shutdown: scheduler and executor are stopped before
   * the final flush, which runs exactly once; both connections are closed
   * after it, unless it threw.
   */
  lemma LegacyShutdownOrder(thrown: bool)
    ensures var e := LegacyShutdownSteps(thrown);
      && multiset(e)[FinalFlush] == 1
      && (forall i :: 0 <= i < |e| && e[i] == FinalFlush ==>
            && e[..i] == [SchedulerStopped, ExecutorStopped]
            && e[i + 1..] == if thrown then [] else [StoreDisconnected, PoolClosed])
  {
    var e := LegacyShutdownSteps(thrown);
    var after: seq<Event> := if thrown then [] else [StoreDisconnected, PoolClosed];
    assert e == [SchedulerStopped, ExecutorStopped, FinalFlush] + after;
    assert multiset(e)[FinalFlush] == 1 + multiset(after)[FinalFlush];
  }
}

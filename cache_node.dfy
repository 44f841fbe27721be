/**
 * A cache node: one entity type's write-behind cache over the shared fast
 * store and the database. The model's node is the generic one, so the class
 * holds both CacheNode's operations and GenericCacheNode's durable hooks.
 * Every operation works step by step on the two store objects and is proved
 * to have the effect the matching NodeSpec function describes.
 */
module CacheNodes {
  import opened Json
  import opened CacheModel
  import opened GenericTable
  import opened Stores
  import opened NodeKeys
  import opened NodeSpec

  class CacheNode {
    const name: string
    /** The factory with `deserialize` and `getIdentifier`: the identifier of an entity read back from a record. */
    const identify: IdOf
    const store: FastStore
    const db: Database

    constructor (name: string, identify: IdOf, store: FastStore, db: Database)
      ensures this.name == name && this.identify == identify && this.store == store && this.db == db
    {
      this.name, this.identify, this.store, this.db := name, identify, store, db;
    }

    ghost function Snapshot(): World
      reads store, db
    {
      WorldOf(store, db)
    }

    /** `set(model)`: no database access; the record is written and the id marked dirty. */
    method Set(model: Model)
      modifies store
      ensures Snapshot() == SetSpec(old(Snapshot()), name, model)
    {
      var key := Key(name, model.id);
      store.Set(key, Render(model.data));
      store.SRem(DeletedKey(name), model.id);
      store.SAdd(DirtyKey(name), model.id);
    }

    /** `get(identifier)`: tombstone check, cache hit, or read-through. */
    method Get(identifier: string) returns (r: Fetched)
      modifies store
      ensures Got(r, Snapshot()) == GetSpec(old(Snapshot()), name, identify, identifier)
    {
      var tombstoned := store.SIsMember(DeletedKey(name), identifier);
      if tombstoned {
        return NotFound;
      }
      var json := store.Get(Key(name, identifier));
      if json.Some? {
        match Parse(json.value)
        case Parsed(record) =>
          return Found(Deserialize(identify, record));
        case _ =>
          return Malformed;
      }
      var dbModel := LoadFromDatabase(identifier);
      if dbModel.Some? {
        Set(dbModel.value);
        return Found(dbModel.value);
      }
      return NotFound;
    }

    /** `delete(identifier)`: the table is left for `flush`. */
    method Delete(identifier: string)
      modifies store
      ensures Snapshot() == DeleteSpec(old(Snapshot()), name, identifier)
    {
      var key := Key(name, identifier);
      store.Del(key);
      store.SRem(DirtyKey(name), identifier);
      store.SAdd(DeletedKey(name), identifier);
    }

    /**
     * `flush()`: persist every dirty entity `get` still returns and unmark it,
     * then delete every tombstoned row and clear the tombstone. An SQLException
     * ends the phase it occurs in; any other exception escapes (`thrown`).
     */
    method Flush() returns (ghost saveOrder: seq<string>, ghost removeOrder: seq<string>, thrown: bool)
      modifies store, db
      ensures FlushedBy(old(Snapshot()), Snapshot(), name, identify, saveOrder, removeOrder, thrown)
    {
      ghost var w0 := Snapshot();
      var toSave := store.SMembers(DirtyKey(name));
      var status;
      saveOrder, status := SaveDirty(toSave);
      removeOrder := [];
      thrown := status == Crashed;
      if thrown {
        return;
      }
      ghost var w1 := Snapshot();
      var toDelete := store.SMembers(DeletedKey(name));
      removeOrder := RemoveTombstoned(toDelete);
    }

    /** The first half of `flush` for the dirty snapshot `toSave`. */
    method SaveDirty(toSave: set<string>) returns (ghost order: seq<string>, status: Status)
      requires toSave == Dirty(Snapshot(), name)
      modifies store, db
      ensures IsEnumeration(order, toSave)
      ensures SavePhase(old(Snapshot()), name, identify, order) == Phase(Snapshot(), status)
    {
      order := [];
      status := Completed;
      if toSave == {} {
        return;
      }
      if db.down {
        // getConnection() throws; the exception is printed
        order := Enumerate(toSave);
        status := SqlFailed;
        return;
      }
      ghost var w0 := Snapshot();
      var rest := toSave;
      while rest != {}
        invariant rest <= toSave
        invariant IsEnumeration(order, toSave - rest)
        invariant status != Completed ==> rest == {}
        invariant SaveAll(w0, name, identify, order) == Phase(Snapshot(), status)
        decreases rest
      {
        var id :| id in rest;
        EnumerationConcat(order, toSave - rest, [id], {id});
        assert toSave - rest + {id} == toSave - (rest - {id});
        rest := rest - {id};
        SaveAllSnoc(w0, name, identify, order, id);
        order := order + [id];
        status := SaveDirtyEntry(id);
        if status != Completed {
          // the exception leaves the loop: the rest of the snapshot is not visited
          ghost var tail := Enumerate(rest);
          EnumerationConcat(order, toSave - rest, tail, rest);
          assert toSave - rest + rest == toSave;
          SaveAllStops(w0, name, identify, order, tail);
          order := order + tail;
          rest := {};
        }
      }
    }

    /** One iteration of flush's dirty loop. */
    method SaveDirtyEntry(id: string) returns (status: Status)
      modifies store, db
      ensures SaveStep(old(Snapshot()), name, identify, id) == Phase(Snapshot(), status)
    {
      var model := Get(id);
      if model.Malformed? {
        return Crashed;
      }
      if model.NotFound? {
        return Completed;
      }
      var saved := SaveToDatabase(model.model);
      if !saved {
        return SqlFailed;
      }
      store.SRem(DirtyKey(name), id);
      return Completed;
    }

    /** The second half of `flush` for the tombstone snapshot `toDelete`. */
    method RemoveTombstoned(toDelete: set<string>) returns (ghost order: seq<string>)
      requires toDelete == Deleted(Snapshot(), name)
      modifies store, db
      ensures IsEnumeration(order, toDelete)
      ensures RemovePhase(old(Snapshot()), name, order).world == Snapshot()
      ensures RemovePhase(old(Snapshot()), name, order).status != Crashed
    {
      order := [];
      if toDelete == {} {
        return;
      }
      if db.down {
        order := Enumerate(toDelete);
        return;
      }
      ghost var w0 := Snapshot();
      var status := Completed;
      var rest := toDelete;
      while rest != {}
        invariant rest <= toDelete
        invariant IsEnumeration(order, toDelete - rest)
        invariant status == Completed || status == SqlFailed
        invariant status == SqlFailed ==> rest == {}
        invariant RemoveEach(w0, name, order) == Phase(Snapshot(), status)
        decreases rest
      {
        var id :| id in rest;
        EnumerationConcat(order, toDelete - rest, [id], {id});
        assert toDelete - rest + {id} == toDelete - (rest - {id});
        rest := rest - {id};
        RemoveEachSnoc(w0, name, order, id);
        order := order + [id];
        var removed := RemoveFromDatabase(id);
        if !removed {
          ghost var tail := Enumerate(rest);
          EnumerationConcat(order, toDelete - rest, tail, rest);
          assert toDelete - rest + rest == toDelete;
          status := SqlFailed;
          RemoveEachStops(w0, name, order, tail);
          order := order + tail;
          rest := {};
        } else {
          store.SRem(DeletedKey(name), id);
        }
      }
    }

    /**
     * `getAll()`: durable entities that are not tombstoned, then every entity
     * `get` returns for an identifier recovered from a cache key, which wins.
     * The Java list is the values of `merged`.
     */
    method GetAll() returns (merged: map<string, Model>, thrown: bool,
                             ghost rowOrder: seq<string>, ghost keyOrder: seq<string>)
      modifies store
      ensures IsEnumeration(rowOrder, Visible(old(Snapshot()), name).Keys)
      ensures IsEnumeration(keyOrder, CachedKeys(old(Snapshot()), name))
      ensures GetAllSpec(old(Snapshot()), name, identify, rowOrder, keyOrder) == Listing(merged, Snapshot(), thrown)
    {
      var rows;
      rows, rowOrder := GetAllFromDatabase();
      var fromRows := MergeLive(rows);
      var redisKeys := store.KeysWithPrefix(Prefix(name));
      merged, thrown, keyOrder := OverlayKeys(redisKeys, fromRows);
    }

    /** getAll's first loop. */
    method MergeLive(rows: seq<Model>) returns (merged: map<string, Model>)
      ensures merged == MergeRows(Snapshot(), name, rows)
    {
      merged := map[];
      var i := 0;
      while i < |rows|
        invariant 0 <= i <= |rows|
        invariant merged == MergeRows(Snapshot(), name, rows[..i])
      {
        assert rows[..i + 1][..i] == rows[..i];
        var tombstoned := store.SIsMember(DeletedKey(name), rows[i].id);
        if !tombstoned {
          merged := merged[rows[i].id := rows[i]];
        }
        i := i + 1;
      }
      assert rows[..|rows|] == rows;
    }

    /** getAll's second loop, over the key snapshot `redisKeys`. */
    method OverlayKeys(redisKeys: set<string>, fromRows: map<string, Model>)
      returns (merged: map<string, Model>, thrown: bool, ghost order: seq<string>)
      modifies store
      ensures IsEnumeration(order, redisKeys)
      ensures OverlayCached(old(Snapshot()), name, identify, order, fromRows) == Listing(merged, Snapshot(), thrown)
    {
      ghost var w0 := Snapshot();
      merged := fromRows;
      order := [];
      thrown := false;
      var rest := redisKeys;
      while rest != {}
        invariant rest <= redisKeys
        invariant IsEnumeration(order, redisKeys - rest)
        invariant OverlayCached(w0, name, identify, order, fromRows) == Listing(merged, Snapshot(), false)
        decreases rest
      {
        var key :| key in rest;
        EnumerationConcat(order, redisKeys - rest, [key], {key});
        assert redisKeys - rest + {key} == redisKeys - (rest - {key});
        rest := rest - {key};
        OverlaySnoc(w0, name, identify, order, key, fromRows);
        order := order + [key];
        var identifier := StripAll(key, Prefix(name));
        var redisModel := Get(identifier);
        if redisModel.Malformed? {
          ghost var tail := Enumerate(rest);
          EnumerationConcat(order, redisKeys - rest, tail, rest);
          assert redisKeys - rest + rest == redisKeys;
          OverlayStops(w0, name, identify, order, tail, fromRows);
          order := order + tail;
          thrown := true;
          return;
        }
        if redisModel.Found? {
          merged := merged[identifier := redisModel.model];
        }
      }
    }

    /** `getAllFromDatabase()`: one entity per row, deserialized from its `data`. */
    method GetAllFromDatabase() returns (models: seq<Model>, ghost order: seq<string>)
      ensures IsEnumeration(order, Visible(Snapshot(), name).Keys)
      ensures |models| == |order|
      ensures forall i :: 0 <= i < |order| ==>
        order[i] in Visible(Snapshot(), name) && models[i] == Deserialize(identify, Visible(Snapshot(), name)[order[i]])
      ensures models == RowModels(Visible(Snapshot(), name), identify, order)
      ensures |models| == |Visible(Snapshot(), name)|
      ensures forall id :: id in Visible(Snapshot(), name) ==> Deserialize(identify, Visible(Snapshot(), name)[id]) in models
    {
      models, order := [], [];
      if db.down || name !in db.tables {
        // the connection or the SELECT fails; the exception is printed
        return;
      }
      var table := db.tables[name];
      var rest := table.Keys;
      while rest != {}
        invariant rest <= table.Keys
        invariant forall x :: x in order <==> x in table && x !in rest
        invariant forall i, j :: 0 <= i < j < |order| ==> order[i] != order[j]
        invariant |models| == |order|
        invariant forall i :: 0 <= i < |order| ==> order[i] in table && models[i] == Deserialize(identify, table[order[i]])
        invariant models == RowModels(table, identify, order)
        invariant |order| == |table.Keys| - |rest|
        decreases rest
      {
        var id :| id in rest;
        rest := rest - {id};
        ghost var before := order;
        order := order + [id];
        assert order[..|order| - 1] == before;
        models := models + [Deserialize(identify, table[id])];
      }
      assert |table.Keys| == |table|;
      forall id | id in table
        ensures Deserialize(identify, table[id]) in models
      {
        var i :| 0 <= i < |order| && order[i] == id;
        assert models[i] == Deserialize(identify, table[id]);
      }
    }

    /** `loadFromDatabase(id)`: the entity in the row for `id`, or null when there is none or SQL fails. */
    method LoadFromDatabase(id: string) returns (r: Option<Model>)
      ensures r.Some? <==> !db.down && name in db.tables && id in db.tables[name]
      ensures r.Some? ==> r.value == Deserialize(identify, db.tables[name][id])
      ensures r == Load(Snapshot(), name, identify, id)
    {
      if db.down || name !in db.tables {
        return None;
      }
      var table := db.tables[name];
      if id in table {
        return Some(Deserialize(identify, table[id]));
      }
      return None;
    }

    /**
     * `saveToDatabase(conn, model)` on an open connection, reconciled with the
     * generic `saveToDatabase(conn, id, json)`: upsert `(getIdentifier(),
     * serialize().toString())`. `saved` is false where an SQLException is thrown.
     */
    method SaveToDatabase(model: Model) returns (saved: bool)
      modifies db
      ensures saved <==> name in old(db.tables) && |model.id| <= MaxIdLength
      ensures db.tables == if saved then old(db.tables)[name := old(db.tables)[name][model.id := model.data]] else old(db.tables)
      ensures db.cells == old(db.cells) && db.down == old(db.down)
      ensures saved ==> Snapshot() == SaveRow(old(Snapshot()), name, model).value
      ensures !saved ==> SaveRow(old(Snapshot()), name, model).None?
    {
      if name !in db.tables {
        return false;
      }
      var upserted := Upsert(db.tables[name], model.id, model.data);
      if upserted.None? {
        return false;
      }
      db.tables := db.tables[name := upserted.value];
      return true;
    }

    /** `removeFromDatabase(conn, id)`: `DELETE FROM <node> WHERE id = ?`. */
    method RemoveFromDatabase(id: string) returns (removed: bool)
      modifies db
      ensures removed <==> name in old(db.tables)
      ensures db.tables == if removed then old(db.tables)[name := old(db.tables)[name] - {id}] else old(db.tables)
      ensures db.cells == old(db.cells) && db.down == old(db.down)
    {
      if name !in db.tables {
        return false;
      }
      db.tables := db.tables[name := RemoveRow(db.tables[name], id)];
      return true;
    }

    /** `createTableIfNotExists()`: an SQL failure is printed and ignored. */
    method CreateTableIfNotExists()
      modifies db
      ensures db.tables == if old(db.down) then old(db.tables) else CreateTable(old(db.tables), name)
      ensures db.cells == old(db.cells) && db.down == old(db.down)
    {
      if !db.down {
        db.tables := CreateTable(db.tables, name);
      }
    }
  }
}

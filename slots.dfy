/**
 * A node's view of one identifier: everything the two stores hold for it (the
 * cached text at its key and that key's expiry, its membership of the dirty
 * and tombstone sets, its row in the node's table). Every single-identifier
 * step of the node (`set`, `delete`, `get`, one iteration of either flush
 * loop) reads and writes the slot of its own identifier only, which is what
 * lets the flush and getAll loops be summed up identifier by identifier.
 */
module Slots {
  import opened Json
  import opened CacheModel
  import opened GenericTable
  import opened Stores
  import opened NodeKeys
  import opened NodeSpec

  datatype Slot = Slot(cached: Option<Text>, expiry: Option<nat>, dirty: bool, deleted: bool, row: Option<Record>)

  function Lookup<K, V>(m: map<K, V>, k: K): Option<V> {
    if k in m then Some(m[k]) else None
  }

  /** The row stored for `id` in the node's table, whether or not a connection can be had. */
  function RowOf(w: World, node: string, id: string): Option<Record> {
    if node in w.tables then Lookup(w.tables[node], id) else None
  }

  function SlotOf(w: World, node: string, id: string): Slot {
    var key := Key(node, id);
    Slot(Lookup(w.values, key), Lookup(w.ttl, key), id in Dirty(w, node), id in Deleted(w, node), RowOf(w, node, id))
  }

  /** What every identifier's fate also depends on: the connection and the table's existence. */
  predicate SameEnv(w: World, w': World, node: string) {
    w'.down == w.down && (node in w'.tables <==> node in w.tables) && w'.cells == w.cells
  }

  /**
   * The entity type's identifier agrees with the slot it is stored under: a
   * record cached or stored for `id` deserializes to an entity whose
   * `getIdentifier()` is `id`. This holds of everything `set` writes for an
   * entity whose serialization round-trips its identifier.
   */
  predicate SlotCoherent(s: Slot, id: string, identify: IdOf) {
    && (s.cached.Some? && s.cached.value.Rendered? ==> identify(s.cached.value.record) == id)
    && (s.row.Some? ==> identify(s.row.value) == id)
  }

  ghost predicate Coherent(w: World, node: string, identify: IdOf) {
    forall id :: SlotCoherent(SlotOf(w, node, id), id, identify)
  }

  /** `deserialize(serialize(m))` reports `m`'s identifier. */
  predicate RoundTrips(identify: IdOf, m: Model) {
    identify(m.data) == m.id
  }

  /** What `get(id)` finds, read off the slot of `id`. */
  function FetchSlot(s: Slot, down: bool, hasTable: bool, identify: IdOf): Fetched {
    if s.deleted then NotFound
    else if s.cached.Some? then
      match Parse(s.cached.value)
      case Parsed(r) => Found(Deserialize(identify, r))
      case _ => Malformed
    else if !down && hasTable && s.row.Some? then Found(Deserialize(identify, s.row.value))
    else NotFound
  }

  datatype SlotPhase = SlotPhase(slot: Slot, status: Status)

  /**
   * One iteration of flush's dirty loop, read off the slot of `id`: a found
   * entity not in the cache is cached and marked dirty by the read-through;
   * the upsert then fails on a missing table or an over-long key, or stores
   * the record and clears the dirty mark.
   */
  function SaveSlot(s: Slot, id: string, down: bool, hasTable: bool, identify: IdOf): SlotPhase {
    match FetchSlot(s, down, hasTable, identify)
    case Malformed => SlotPhase(s, Crashed)
    case NotFound => SlotPhase(s, Completed)
    case Found(m) =>
      var filled := if s.cached.Some? then s else s.(cached := Some(Render(m.data)), expiry := None, dirty := true);
      if !hasTable || |id| > MaxIdLength then SlotPhase(filled, SqlFailed)
      else SlotPhase(filled.(row := Some(m.data), dirty := false), Completed)
  }

  /** `SaveSlot` for `id` in world `w`. */
  function Saved(w: World, node: string, identify: IdOf, id: string): SlotPhase {
    SaveSlot(SlotOf(w, node, id), id, w.down, node in w.tables, identify)
  }

  /** Distinct identifiers have distinct keys (the contrapositive of KeyInjective). */
  lemma KeysDiffer(node: string, a: string, b: string)
    requires a != b
    ensures Key(node, a) != Key(node, b)
  {
    if Key(node, a) == Key(node, b) {
      KeyInjective(node, a, b);
    }
  }

  /** `set(m)` rewrites the slot of `m.id` and no other. */
  lemma SlotOfSet(w: World, node: string, m: Model, y: string)
    ensures SameEnv(w, SetSpec(w, node, m), node) && SetSpec(w, node, m).tables == w.tables
    ensures SlotOf(SetSpec(w, node, m), node, y) ==
      if y == m.id then SlotOf(w, node, y).(cached := Some(Render(m.data)), expiry := None, dirty := true, deleted := false)
      else SlotOf(w, node, y)
  {
    SetKeysDiffer(node);
    if y != m.id {
      KeysDiffer(node, y, m.id);
    }
  }

  /** `delete(id)` rewrites the slot of `id` and no other. */
  lemma SlotOfDelete(w: World, node: string, id: string, y: string)
    ensures SameEnv(w, DeleteSpec(w, node, id), node) && DeleteSpec(w, node, id).tables == w.tables
    ensures SlotOf(DeleteSpec(w, node, id), node, y) ==
      if y == id then SlotOf(w, node, y).(cached := None, expiry := None, dirty := false, deleted := true)
      else SlotOf(w, node, y)
  {
    SetKeysDiffer(node);
    if y != id {
      KeysDiffer(node, y, id);
    }
  }

  /** An accepted upsert rewrites the row of `m.id` and nothing else. */
  lemma SlotOfSaveRow(w: World, node: string, m: Model, y: string)
    requires SaveRow(w, node, m).Some?
    ensures SameEnv(w, SaveRow(w, node, m).value, node)
    ensures SlotOf(SaveRow(w, node, m).value, node, y) ==
      if y == m.id then SlotOf(w, node, y).(row := Some(m.data)) else SlotOf(w, node, y)
  {
  }

  /** Clearing the dirty mark of `x`. */
  lemma SlotOfUnmark(w: World, node: string, x: string, y: string)
    ensures SlotOf(w.(sets := RemoveMember(w.sets, DirtyKey(node), x)), node, y) ==
      if y == x then SlotOf(w, node, y).(dirty := false) else SlotOf(w, node, y)
  {
    SetKeysDiffer(node);
  }

  /** `get(y)` depends on nothing but the slot of `y` and the environment. */
  lemma GetSpecSlot(w: World, node: string, identify: IdOf, y: string)
    ensures GetSpec(w, node, identify, y).result == FetchSlot(SlotOf(w, node, y), w.down, node in w.tables, identify)
    ensures GetSpec(w, node, identify, y).world ==
      match GetSpec(w, node, identify, y).result
      case Found(m) => if Key(node, y) in w.values then w else SetSpec(w, node, m)
      case _ => w
  {
  }

  /**
   * One iteration of flush's dirty loop has the effect `SaveSlot` describes on
   * the slot of its identifier and leaves every other slot, the environment
   * and coherence as they were.
   */
  lemma SaveStepLocal(w: World, node: string, identify: IdOf, id: string)
    requires Coherent(w, node, identify)
    ensures var p := SaveStep(w, node, identify, id);
      && p.status == Saved(w, node, identify, id).status
      && SameEnv(w, p.world, node)
      && (forall y :: SlotOf(p.world, node, y) == if y == id then Saved(w, node, identify, id).slot else SlotOf(w, node, y))
      && Coherent(p.world, node, identify)
  {
    var s := SlotOf(w, node, id);
    var g := GetSpec(w, node, identify, id);
    GetSpecSlot(w, node, identify, id);
    assert SlotCoherent(s, id, identify);
    var p := SaveStep(w, node, identify, id);
    match g.result
    case Malformed =>
    case NotFound =>
    case Found(m) =>
      assert m.id == id;
      forall y
        ensures SlotOf(g.world, node, y) == if y == id then (if s.cached.Some? then s else s.(cached := Some(Render(m.data)), expiry := None, dirty := true)) else SlotOf(w, node, y)
      {
        if Key(node, id) !in w.values {
          SlotOfSet(w, node, m, y);
        }
      }
      if Key(node, id) !in w.values {
        SlotOfSet(w, node, m, id);
      }
      assert SameEnv(w, g.world, node) && g.world.tables == w.tables;
      match SaveRow(g.world, node, m)
      case None =>
        assert Coherent(p.world, node, identify) by {
          forall y
            ensures SlotCoherent(SlotOf(p.world, node, y), y, identify)
          {
            assert SlotCoherent(SlotOf(w, node, y), y, identify);
          }
        }
      case Some(w1) =>
        forall y
          ensures SlotOf(p.world, node, y) == if y == id then Saved(w, node, identify, id).slot else SlotOf(w, node, y)
        {
          SlotOfSaveRow(g.world, node, m, y);
          SlotOfUnmark(w1, node, id, y);
        }
        assert Coherent(p.world, node, identify) by {
          forall y
            ensures SlotCoherent(SlotOf(p.world, node, y), y, identify)
          {
            assert SlotCoherent(SlotOf(w, node, y), y, identify);
          }
        }
  }

  /** One iteration of flush's tombstone loop. */
  lemma RemoveStepLocal(w: World, node: string, id: string, identify: IdOf)
    ensures var p := RemoveStep(w, node, id);
      && p.status == (if node in w.tables then Completed else SqlFailed)
      && SameEnv(w, p.world, node)
      && (p.status == SqlFailed ==> p.world == w)
      && (forall y :: SlotOf(p.world, node, y) ==
            if y == id && node in w.tables then SlotOf(w, node, y).(row := None, deleted := false) else SlotOf(w, node, y))
      && (Coherent(w, node, identify) ==> Coherent(p.world, node, identify))
  {
    SetKeysDiffer(node);
    var p := RemoveStep(w, node, id);
    if Coherent(w, node, identify) {
      forall y
        ensures SlotCoherent(SlotOf(p.world, node, y), y, identify)
      {
        assert SlotCoherent(SlotOf(w, node, y), y, identify);
      }
    }
  }
}

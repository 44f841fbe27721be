/**
 * What `set`, `get` and `delete` of a cache node mean, and the node's
 * invariant that no identifier is both dirty and tombstoned.
 */
module NodeProofs {
  import opened Json
  import opened CacheModel
  import opened GenericTable
  import opened Stores
  import opened NodeKeys
  import opened NodeSpec
  import opened Slots

  /**
   * After `set(m)` the cache holds the rendering of `m`'s record under its key
   * (with no expiry), `m.id` is dirty and not tombstoned, and nothing else
   * changes: no other identifier's slot, no other string key or set key, and
   * nothing in the database.
   */
  lemma SetEffect(w: World, node: string, m: Model)
    ensures var w' := SetSpec(w, node, m);
      && SlotOf(w', node, m.id) == SlotOf(w, node, m.id).(cached := Some(Render(m.data)), expiry := None, dirty := true, deleted := false)
      && (forall y :: y != m.id ==> SlotOf(w', node, y) == SlotOf(w, node, y))
      && (forall k :: k != Key(node, m.id) ==> Lookup(w'.values, k) == Lookup(w.values, k) && Lookup(w'.ttl, k) == Lookup(w.ttl, k))
      && (forall k :: k != DirtyKey(node) && k != DeletedKey(node) ==> Members(w'.sets, k) == Members(w.sets, k))
      && w'.tables == w.tables && w'.cells == w.cells && w'.down == w.down
  {
    var w' := SetSpec(w, node, m);
    forall y | y != m.id
      ensures SlotOf(w', node, y) == SlotOf(w, node, y)
    {
      SlotOfSet(w, node, m, y);
    }
    var y := m.id;
    SlotOfSet(w, node, m, y);
  }

  /**
   * After `delete(id)` nothing is cached under `id`'s key, `id` is not dirty
   * and is tombstoned; no other identifier, key or set changes, and the
   * database is not touched until flush.
   */
  lemma DeleteEffect(w: World, node: string, id: string)
    ensures var w' := DeleteSpec(w, node, id);
      && SlotOf(w', node, id) == SlotOf(w, node, id).(cached := None, expiry := None, dirty := false, deleted := true)
      && (forall y :: y != id ==> SlotOf(w', node, y) == SlotOf(w, node, y))
      && (forall k :: k != Key(node, id) ==> Lookup(w'.values, k) == Lookup(w.values, k) && Lookup(w'.ttl, k) == Lookup(w.ttl, k))
      && (forall k :: k != DirtyKey(node) && k != DeletedKey(node) ==> Members(w'.sets, k) == Members(w.sets, k))
      && w'.tables == w.tables && w'.cells == w.cells && w'.down == w.down
  {
    var w' := DeleteSpec(w, node, id);
    forall y | y != id
      ensures SlotOf(w', node, y) == SlotOf(w, node, y)
    {
      SlotOfDelete(w, node, id, y);
    }
    var y := id;
    SlotOfDelete(w, node, id, y);
  }

  /** A tombstoned identifier reads as null, whatever is cached or stored for it, and nothing changes. */
  lemma GetTombstoned(w: World, node: string, identify: IdOf, id: string)
    requires id in Deleted(w, node)
    ensures GetSpec(w, node, identify, id) == Got(NotFound, w)
  {
  }

  /** `set(m)` then `get(m.id)` returns `m` and changes nothing more. */
  lemma SetThenGet(w: World, node: string, identify: IdOf, m: Model)
    requires RoundTrips(identify, m)
    ensures GetSpec(SetSpec(w, node, m), node, identify, m.id) == Got(Found(m), SetSpec(w, node, m))
  {
    SlotOfSet(w, node, m, m.id);
    GetSpecSlot(SetSpec(w, node, m), node, identify, m.id);
  }

  /**
   * `set(m)` then `get(m.id)`, for any entity: the read finds the cached
   * rendering and hands back the entity deserialized from `m`'s record, and
   * changes nothing more.
   */
  lemma SetThenGetRecord(w: World, node: string, identify: IdOf, m: Model)
    ensures GetSpec(SetSpec(w, node, m), node, identify, m.id)
      == Got(Found(Deserialize(identify, m.data)), SetSpec(w, node, m))
  {
    SlotOfSet(w, node, m, m.id);
    GetSpecSlot(SetSpec(w, node, m), node, identify, m.id);
  }

  /** `delete(id)` then `get(id)` returns null and changes nothing more. */
  lemma DeleteThenGet(w: World, node: string, identify: IdOf, id: string)
    ensures GetSpec(DeleteSpec(w, node, id), node, identify, id) == Got(NotFound, DeleteSpec(w, node, id))
  {
    SlotOfDelete(w, node, id, id);
  }

  /**
   * A cache hit on an identifier that is not tombstoned returns the entity
   * deserialized from the cached record, or throws on text that is not a
   * record; the stores are not changed either way.
   */
  lemma GetCacheHit(w: World, node: string, identify: IdOf, id: string)
    requires id !in Deleted(w, node) && Key(node, id) in w.values
    ensures GetSpec(w, node, identify, id).world == w
    ensures GetSpec(w, node, identify, id).result ==
      if w.values[Key(node, id)].Rendered? then Found(Deserialize(identify, w.values[Key(node, id)].record)) else Malformed
  {
    GetSpecSlot(w, node, identify, id);
  }

  /**
   * On a cache miss `get` reads through: a row the node can reach is
   * returned and `set` (the cache filled and the identifier marked dirty,
   * the table untouched); without one, null is returned and nothing changes.
   */
  lemma GetReadThrough(w: World, node: string, identify: IdOf, id: string)
    requires id !in Deleted(w, node) && Key(node, id) !in w.values
    ensures var g := GetSpec(w, node, identify, id);
      if id in Visible(w, node) then
        var m := Deserialize(identify, Visible(w, node)[id]);
        && g.result == Found(m)
        && g.world.values == w.values[Key(node, m.id) := Render(m.data)]
        && m.id in Dirty(g.world, node)
        && g.world.tables == w.tables
      else g == Got(NotFound, w)
  {
    if id in Visible(w, node) {
      var m := Deserialize(identify, Visible(w, node)[id]);
      SlotOfSet(w, node, m, m.id);
    }
  }

  /** `set` keeps the dirty and tombstone sets disjoint. */
  lemma SetKeepsDisjoint(w: World, node: string, m: Model)
    requires Disjoint(w, node)
    ensures Disjoint(SetSpec(w, node, m), node)
  {
    SetKeysDiffer(node);
  }

  /** `delete` keeps the dirty and tombstone sets disjoint. */
  lemma DeleteKeepsDisjoint(w: World, node: string, id: string)
    requires Disjoint(w, node)
    ensures Disjoint(DeleteSpec(w, node, id), node)
  {
    SetKeysDiffer(node);
  }

  /** `get` keeps the dirty and tombstone sets disjoint. */
  lemma GetKeepsDisjoint(w: World, node: string, identify: IdOf, id: string)
    requires Disjoint(w, node)
    ensures Disjoint(GetSpec(w, node, identify, id).world, node)
  {
    match Load(w, node, identify, id)
    case Some(m) => SetKeepsDisjoint(w, node, m);
    case None =>
  }

  lemma SaveStepKeepsDisjoint(w: World, node: string, identify: IdOf, id: string)
    requires Disjoint(w, node)
    ensures Disjoint(SaveStep(w, node, identify, id).world, node)
  {
    GetKeepsDisjoint(w, node, identify, id);
    SetKeysDiffer(node);
  }

  lemma {:induction false} SaveAllKeepsDisjoint(w: World, node: string, identify: IdOf, ids: seq<string>)
    requires Disjoint(w, node)
    ensures Disjoint(SaveAll(w, node, identify, ids).world, node)
    decreases |ids|
  {
    if ids != [] {
      var pre := ids[..|ids| - 1];
      SaveAllKeepsDisjoint(w, node, identify, pre);
      SaveStepKeepsDisjoint(SaveAll(w, node, identify, pre).world, node, identify, ids[|ids| - 1]);
    }
  }

  lemma {:induction false} RemoveEachKeepsDisjoint(w: World, node: string, ids: seq<string>)
    requires Disjoint(w, node)
    ensures Disjoint(RemoveEach(w, node, ids).world, node)
    decreases |ids|
  {
    if ids != [] {
      var pre := ids[..|ids| - 1];
      RemoveEachKeepsDisjoint(w, node, pre);
      SetKeysDiffer(node);
    }
  }

  /** A flush, however it ends, keeps the dirty and tombstone sets disjoint. */
  lemma FlushKeepsDisjoint(before: World, after: World, node: string, identify: IdOf,
                           saveOrder: seq<string>, removeOrder: seq<string>, thrown: bool)
    requires Disjoint(before, node)
    requires FlushedBy(before, after, node, identify, saveOrder, removeOrder, thrown)
    ensures Disjoint(after, node)
  {
    SaveAllKeepsDisjoint(before, node, identify, saveOrder);
    var p := SavePhase(before, node, identify, saveOrder);
    RemoveEachKeepsDisjoint(p.world, node, removeOrder);
  }

  /**
   * `set` of an entity whose serialization reports its own identifier keeps
   * the entity type coherent with the stores.
   */
  lemma SetKeepsCoherent(w: World, node: string, identify: IdOf, m: Model)
    requires Coherent(w, node, identify) && RoundTrips(identify, m)
    ensures Coherent(SetSpec(w, node, m), node, identify)
  {
    forall y
      ensures SlotCoherent(SlotOf(SetSpec(w, node, m), node, y), y, identify)
    {
      SlotOfSet(w, node, m, y);
      assert SlotCoherent(SlotOf(w, node, y), y, identify);
    }
  }

  /** `delete` keeps the entity type coherent with the stores. */
  lemma DeleteKeepsCoherent(w: World, node: string, identify: IdOf, id: string)
    requires Coherent(w, node, identify)
    ensures Coherent(DeleteSpec(w, node, id), node, identify)
  {
    forall y
      ensures SlotCoherent(SlotOf(DeleteSpec(w, node, id), node, y), y, identify)
    {
      SlotOfDelete(w, node, id, y);
      assert SlotCoherent(SlotOf(w, node, y), y, identify);
    }
  }

  /**
   * `get` keeps the entity type coherent with the stores: its read-through
   * caches the loaded entity under the identifier it reports, which is the
   * identifier of the row it came from.
   */
  lemma GetKeepsCoherent(w: World, node: string, identify: IdOf, id: string)
    requires Coherent(w, node, identify)
    ensures Coherent(GetSpec(w, node, identify, id).world, node, identify)
  {
    match Load(w, node, identify, id)
    case Some(m) =>
      SetKeepsCoherent(w, node, identify, m);
    case None =>
  }
}

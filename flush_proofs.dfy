/**
 * What `flush` achieves. The two loops of flush are summed up identifier by
 * identifier: the dirty loop gives each identifier it reaches the slot
 * `SaveSlot` describes and leaves every other slot alone, and the tombstone
 * loop deletes each tombstoned row and clears its tombstone. The results hold
 * for every iteration order of the two set snapshots.
 *
 * The entity type is assumed coherent (Slots.Coherent): what is cached or
 * stored for an identifier deserializes to an entity reporting that
 * identifier, so the upsert keyed by `getIdentifier()` lands on the row of the
 * identifier being flushed.
 */
module FlushProofs {
  import opened Json
  import opened CacheModel
  import opened GenericTable
  import opened Stores
  import opened NodeKeys
  import opened NodeSpec
  import opened Slots

  predicate Distinct(s: seq<string>) {
    forall i, j :: 0 <= i < j < |s| ==> s[i] != s[j]
  }

  /** The dirty loop over distinct identifiers, summed up slot by slot. */
  lemma {:induction false} SaveAllLocal(w: World, node: string, identify: IdOf, ids: seq<string>)
    requires Coherent(w, node, identify) && Distinct(ids)
    ensures var p := SaveAll(w, node, identify, ids);
      && SameEnv(w, p.world, node) && Coherent(p.world, node, identify)
      && (p.status == Completed <==> forall y :: y in ids ==> Saved(w, node, identify, y).status == Completed)
      && (p.status == Completed ==>
            forall y :: SlotOf(p.world, node, y) == if y in ids then Saved(w, node, identify, y).slot else SlotOf(w, node, y))
      && (forall y :: SlotOf(p.world, node, y) == SlotOf(w, node, y)
                   || (y in ids && SlotOf(p.world, node, y) == Saved(w, node, identify, y).slot))
    decreases |ids|
  {
    if ids != [] {
      var pre, x := ids[..|ids| - 1], ids[|ids| - 1];
      assert ids == pre + [x];
      assert Distinct(pre);
      assert x !in pre;
      SaveAllLocal(w, node, identify, pre);
      var p0 := SaveAll(w, node, identify, pre);
      if p0.status == Completed {
        SaveStepLocal(p0.world, node, identify, x);
        assert Saved(p0.world, node, identify, x) == Saved(w, node, identify, x);
      }
    }
  }

  /** The first half of flush for a snapshot iterated as `ids`. */
  lemma SavePhaseLocal(w: World, node: string, identify: IdOf, ids: seq<string>)
    requires Coherent(w, node, identify) && Distinct(ids)
    ensures var p := SavePhase(w, node, identify, ids);
      && SameEnv(w, p.world, node) && Coherent(p.world, node, identify)
      && (ids != [] && w.down ==> p == Phase(w, SqlFailed))
      && (p.status == Completed ==> forall y :: y in ids ==> Saved(w, node, identify, y).status == Completed)
      && (p.status == Completed ==>
            forall y :: SlotOf(p.world, node, y) == if y in ids then Saved(w, node, identify, y).slot else SlotOf(w, node, y))
      && (forall y :: SlotOf(p.world, node, y) == SlotOf(w, node, y)
                   || (y in ids && SlotOf(p.world, node, y) == Saved(w, node, identify, y).slot))
  {
    if ids != [] && !w.down {
      SaveAllLocal(w, node, identify, ids);
    }
  }

  /** The tombstone loop: the first failure can only be the missing table, and then nothing has changed. */
  lemma {:induction false} RemoveEachLocal(w: World, node: string, identify: IdOf, ids: seq<string>)
    ensures var p := RemoveEach(w, node, ids);
      && p.status == (if ids != [] && node !in w.tables then SqlFailed else Completed)
      && (p.status == SqlFailed ==> p.world == w)
      && SameEnv(w, p.world, node)
      && (Coherent(w, node, identify) ==> Coherent(p.world, node, identify))
      && (forall y :: SlotOf(p.world, node, y) ==
            if y in ids && node in w.tables then SlotOf(w, node, y).(row := None, deleted := false) else SlotOf(w, node, y))
    decreases |ids|
  {
    if ids != [] {
      var pre, x := ids[..|ids| - 1], ids[|ids| - 1];
      assert ids == pre + [x];
      RemoveEachLocal(w, node, identify, pre);
      var p0 := RemoveEach(w, node, pre);
      if p0.status == Completed {
        RemoveStepLocal(p0.world, node, x, identify);
      }
    }
  }

  /** The second half of flush for a snapshot iterated as `ids`. */
  lemma RemovePhaseLocal(w: World, node: string, identify: IdOf, ids: seq<string>)
    ensures var p := RemovePhase(w, node, ids);
      && p.status != Crashed
      && (p.status == SqlFailed ==> p.world == w)
      && SameEnv(w, p.world, node)
      && (Coherent(w, node, identify) ==> Coherent(p.world, node, identify))
      && (p.status == Completed ==>
            forall y :: SlotOf(p.world, node, y) ==
              if y in ids then SlotOf(w, node, y).(row := None, deleted := false) else SlotOf(w, node, y))
  {
    if ids != [] && !w.down {
      RemoveEachLocal(w, node, identify, ids);
    }
  }

  /** The dirty loop never adds or clears a tombstone. */
  lemma SavePhaseKeepsTombstones(w: World, node: string, identify: IdOf, ids: seq<string>)
    requires Coherent(w, node, identify) && Distinct(ids)
    ensures Deleted(SavePhase(w, node, identify, ids).world, node) == Deleted(w, node)
  {
    var w1 := SavePhase(w, node, identify, ids).world;
    SavePhaseLocal(w, node, identify, ids);
    forall y
      ensures y in Deleted(w1, node) <==> y in Deleted(w, node)
    {
      assert SlotOf(w1, node, y).deleted == SlotOf(w, node, y).deleted;
    }
  }

  /** What a flush that met no exception in either phase makes of the slot of `y`. */
  ghost function CleanFlushSlot(w: World, node: string, identify: IdOf, y: string): Slot {
    var s := if y in Dirty(w, node) then Saved(w, node, identify, y).slot else SlotOf(w, node, y);
    if y in Deleted(w, node) then s.(row := None, deleted := false) else s
  }

  /** Both phases of the flush ran to the end. */
  ghost predicate Clean(before: World, node: string, identify: IdOf, saveOrder: seq<string>, removeOrder: seq<string>) {
    var p := SavePhase(before, node, identify, saveOrder);
    p.status == Completed && RemovePhase(p.world, node, removeOrder).status == Completed
  }

  /** A flush with no exception, slot by slot, whatever the iteration orders. */
  lemma CleanFlushSlots(before: World, after: World, node: string, identify: IdOf,
                        saveOrder: seq<string>, removeOrder: seq<string>)
    requires Coherent(before, node, identify)
    requires FlushedBy(before, after, node, identify, saveOrder, removeOrder, false)
    requires Clean(before, node, identify, saveOrder, removeOrder)
    ensures SameEnv(before, after, node) && Coherent(after, node, identify)
    ensures forall y :: y in Dirty(before, node) ==> Saved(before, node, identify, y).status == Completed
    ensures forall y :: SlotOf(after, node, y) == CleanFlushSlot(before, node, identify, y)
  {
    var p := SavePhase(before, node, identify, saveOrder);
    SavePhaseLocal(before, node, identify, saveOrder);
    SavePhaseKeepsTombstones(before, node, identify, saveOrder);
    RemovePhaseLocal(p.world, node, identify, removeOrder);
  }

  /**
   * A flush with no exception: every dirty identifier `get` returns an entity
   * for has that entity's record stored in its row and cached under its key
   * and is no longer dirty; every dirty identifier `get` returns null for
   * stays dirty; every tombstoned row is deleted and no tombstone is left; no
   * other identifier is touched.
   */
  lemma CleanFlushEffect(before: World, after: World, node: string, identify: IdOf,
                         saveOrder: seq<string>, removeOrder: seq<string>)
    requires Coherent(before, node, identify)
    requires FlushedBy(before, after, node, identify, saveOrder, removeOrder, false)
    requires Clean(before, node, identify, saveOrder, removeOrder)
    ensures forall y :: y in Dirty(before, node) ==>
      match GetSpec(before, node, identify, y).result
      case Found(m) =>
        && y !in Dirty(after, node)
        && RowOf(after, node, y) == Some(m.data)
        && Lookup(after.values, Key(node, y)) == Some(Render(m.data))
      case NotFound => y in Dirty(after, node)
      case Malformed => false
    ensures forall y :: y in Deleted(before, node) ==> RowOf(after, node, y) == None
    ensures Deleted(after, node) == {}
    ensures forall y :: y !in Dirty(before, node) && y !in Deleted(before, node) ==> SlotOf(after, node, y) == SlotOf(before, node, y)
  {
    CleanFlushSlots(before, after, node, identify, saveOrder, removeOrder);
    forall y | y in Dirty(before, node)
      ensures match GetSpec(before, node, identify, y).result
        case Found(m) =>
          && y !in Dirty(after, node)
          && RowOf(after, node, y) == Some(m.data)
          && Lookup(after.values, Key(node, y)) == Some(Render(m.data))
        case NotFound => y in Dirty(after, node)
        case Malformed => false
    {
      GetSpecSlot(before, node, identify, y);
      assert SlotOf(after, node, y) == CleanFlushSlot(before, node, identify, y);
    }
    forall y | y in Deleted(before, node)
      ensures RowOf(after, node, y) == None
    {
      assert SlotOf(after, node, y) == CleanFlushSlot(before, node, identify, y);
    }
    forall y
      ensures y !in Deleted(after, node)
    {
      assert SlotOf(after, node, y) == CleanFlushSlot(before, node, identify, y);
    }
  }

  /** The dirty loop over identifiers `get` finds nothing for changes nothing. */
  lemma {:induction false} SaveAllIdle(w: World, node: string, identify: IdOf, ids: seq<string>)
    requires forall y :: y in ids ==> GetSpec(w, node, identify, y) == Got(NotFound, w)
    ensures SaveAll(w, node, identify, ids) == Phase(w, Completed)
    decreases |ids|
  {
    if ids != [] {
      var pre := ids[..|ids| - 1];
      assert ids == pre + [ids[|ids| - 1]];
      SaveAllIdle(w, node, identify, pre);
    }
  }

  /**
   * A second flush right after a flush with no exception changes nothing,
   * whatever order it visits the remaining dirty identifiers in, as long as
   * no identifier was both dirty and tombstoned.
   */
  lemma FlushTwice(before: World, after: World, node: string, identify: IdOf,
                   saveOrder: seq<string>, removeOrder: seq<string>,
                   saveOrder2: seq<string>, removeOrder2: seq<string>)
    requires Coherent(before, node, identify) && Disjoint(before, node)
    requires FlushedBy(before, after, node, identify, saveOrder, removeOrder, false)
    requires Clean(before, node, identify, saveOrder, removeOrder)
    requires IsEnumeration(saveOrder2, Dirty(after, node))
    requires IsEnumeration(removeOrder2, Deleted(SavePhase(after, node, identify, saveOrder2).world, node))
    ensures FlushSpec(after, node, identify, saveOrder2, removeOrder2) == Phase(after, Completed)
  {
    CleanFlushSlots(before, after, node, identify, saveOrder, removeOrder);
    CleanFlushEffect(before, after, node, identify, saveOrder, removeOrder);
    forall y | y in saveOrder2
      ensures y in Dirty(before, node) && GetSpec(after, node, identify, y) == Got(NotFound, after)
    {
      assert SlotOf(after, node, y) == CleanFlushSlot(before, node, identify, y);
      GetSpecSlot(before, node, identify, y);
      GetSpecSlot(after, node, identify, y);
      assert y in Dirty(before, node);
      assert y !in Deleted(before, node);
    }
    if saveOrder2 != [] {
      assert saveOrder2[0] in Dirty(before, node);
      assert saveOrder != [] by {
        assert saveOrder2[0] in saveOrder;
      }
      SavePhaseLocal(before, node, identify, saveOrder);
      SaveAllIdle(after, node, identify, saveOrder2);
    }
    EnumerationEmpty(removeOrder2, Deleted(after, node));
  }

  /**
   * Whatever way a flush ends (an SQL error in either phase, an exception
   * escaping, or none), an identifier of the dirty snapshot has lost its dirty
   * mark only if `get` found an entity for it and that entity's record is now
   * its row: no pending write is dropped.
   */
  lemma FlushKeepsUnsaved(before: World, after: World, node: string, identify: IdOf,
                          saveOrder: seq<string>, removeOrder: seq<string>, thrown: bool)
    requires Coherent(before, node, identify)
    requires FlushedBy(before, after, node, identify, saveOrder, removeOrder, thrown)
    ensures forall y :: y in Dirty(before, node) && y !in Dirty(after, node) ==>
      && GetSpec(before, node, identify, y).result.Found?
      && RowOf(after, node, y) == Some(GetSpec(before, node, identify, y).result.model.data)
  {
    var p := SavePhase(before, node, identify, saveOrder);
    SavePhaseLocal(before, node, identify, saveOrder);
    forall y | y in Dirty(before, node) && y !in Dirty(p.world, node)
      ensures GetSpec(before, node, identify, y).result.Found?
      ensures RowOf(p.world, node, y) == Some(GetSpec(before, node, identify, y).result.model.data)
      ensures y !in Deleted(p.world, node)
    {
      GetSpecSlot(before, node, identify, y);
      assert SlotOf(p.world, node, y) == SlotOf(before, node, y) || SlotOf(p.world, node, y) == Saved(before, node, identify, y).slot;
    }
    if p.status != Crashed {
      RemovePhaseLocal(p.world, node, identify, removeOrder);
      forall y | y in Dirty(before, node) && y !in Dirty(after, node)
        ensures y !in Dirty(p.world, node) && SlotOf(after, node, y) == SlotOf(p.world, node, y)
      {
        assert SlotOf(after, node, y).dirty == SlotOf(p.world, node, y).dirty;
      }
    }
  }

  /**
   * An SQL error in the dirty loop stops it: each identifier of the snapshot
   * has either been handled as a clean flush handles it or is left exactly as
   * it was, dirty mark included, for the next flush. An SQL error in the
   * tombstone loop stops it before anything is deleted, so every tombstone
   * and every row is still there.
   */
  lemma FlushSqlFailure(before: World, after: World, node: string, identify: IdOf,
                        saveOrder: seq<string>, removeOrder: seq<string>, thrown: bool)
    requires Coherent(before, node, identify)
    requires FlushedBy(before, after, node, identify, saveOrder, removeOrder, thrown)
    ensures var p := SavePhase(before, node, identify, saveOrder);
      p.status == SqlFailed ==>
        forall y :: y in Dirty(before, node) ==>
          SlotOf(p.world, node, y) == SlotOf(before, node, y) || SlotOf(p.world, node, y) == Saved(before, node, identify, y).slot
    ensures var p := SavePhase(before, node, identify, saveOrder);
      p.status != Crashed && RemovePhase(p.world, node, removeOrder).status == SqlFailed ==> after == p.world
  {
    var p := SavePhase(before, node, identify, saveOrder);
    SavePhaseLocal(before, node, identify, saveOrder);
    if p.status != Crashed {
      RemovePhaseLocal(p.world, node, identify, removeOrder);
    }
  }

  /**
   * A flush, however it ends, keeps the entity type coherent with the stores:
   * it writes rows and cached values only for the identifier an entity reports.
   */
  lemma FlushKeepsCoherent(before: World, after: World, node: string, identify: IdOf,
                           saveOrder: seq<string>, removeOrder: seq<string>, thrown: bool)
    requires Coherent(before, node, identify)
    requires FlushedBy(before, after, node, identify, saveOrder, removeOrder, thrown)
    ensures Coherent(after, node, identify)
  {
    SavePhaseLocal(before, node, identify, saveOrder);
    var p := SavePhase(before, node, identify, saveOrder);
    RemovePhaseLocal(p.world, node, identify, removeOrder);
  }
}

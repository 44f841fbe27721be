/**
 * What `getAll` returns. Under two conditions — the entity type is coherent
 * (Slots.Coherent) and no identifier with a cached value itself contains the
 * node's key prefix, so that `key.replace(prefix, "")` recovers it — getAll
 * changes neither store, throws exactly when `get` would throw for some
 * identifier, and otherwise lists, for every identifier, exactly the entity
 * `get` would return for it: durable rows appear unless tombstoned, and a
 * cached value wins over the row.
 */
module GetAllProofs {
  import opened Json
  import opened CacheModel
  import opened GenericTable
  import opened Stores
  import opened NodeKeys
  import opened NodeSpec
  import opened Slots

  /** No identifier cached by the node contains the node's key prefix. */
  ghost predicate NoNestedPrefix(w: World, node: string) {
    forall id :: Key(node, id) in w.values ==> !Contains(id, Prefix(node))
  }

  /** A key the node's `KEYS` pattern matches is the key of the identifier that follows the prefix. */
  lemma PrefixedKey(node: string, k: string)
    requires Prefix(node) <= k
    ensures Key(node, k[|Prefix(node)|..]) == k
  {
    assert k == k[..|Prefix(node)|] + k[|Prefix(node)|..];
  }

  /** The first loop of getAll over the rows iterated as `ids`. */
  lemma {:induction false} RowsMerged(w: World, node: string, identify: IdOf, ids: seq<string>)
    requires Coherent(w, node, identify)
    requires forall x :: x in ids ==> x in Visible(w, node)
    ensures var base := MergeRows(w, node, RowModels(Visible(w, node), identify, ids));
      forall id :: (id in base <==> id in ids && id !in Deleted(w, node))
                && (id in base ==> base[id] == Deserialize(identify, Visible(w, node)[id]))
    decreases |ids|
  {
    if ids != [] {
      var t := Visible(w, node);
      var pre, x := ids[..|ids| - 1], ids[|ids| - 1];
      assert ids == pre + [x];
      RowsMerged(w, node, identify, pre);
      var rows := RowModels(t, identify, pre);
      var m := Deserialize(identify, t[x]);
      assert RowModels(t, identify, ids) == rows + [m];
      assert (rows + [m])[..|rows|] == rows;
      assert SlotCoherent(SlotOf(w, node, x), x, identify);
      assert m.id == x;
    }
  }

  /** The second loop of getAll over cache keys of the node iterated as `keys`. */
  lemma {:induction false} OverlayMerged(w: World, node: string, identify: IdOf, keys: seq<string>, base: map<string, Model>)
    requires NoNestedPrefix(w, node)
    requires forall k :: k in keys ==> k in CachedKeys(w, node)
    ensures var l := OverlayCached(w, node, identify, keys, base);
      && l.world == w
      && (l.thrown <==> exists id :: Key(node, id) in keys && GetSpec(w, node, identify, id).result.Malformed?)
      && (!l.thrown ==> forall id ::
            && (id in l.merged <==> id in base || (Key(node, id) in keys && GetSpec(w, node, identify, id).result.Found?))
            && (id in l.merged ==>
                  l.merged[id] == if Key(node, id) in keys && GetSpec(w, node, identify, id).result.Found?
                                  then GetSpec(w, node, identify, id).result.model else base[id]))
    decreases |keys|
  {
    if keys != [] {
      var pre, k := keys[..|keys| - 1], keys[|keys| - 1];
      assert keys == pre + [k];
      OverlayMerged(w, node, identify, pre, base);
      var l0 := OverlayCached(w, node, identify, pre, base);
      var p := Prefix(node);
      assert k in CachedKeys(w, node);
      assert k in w.values && p <= k;
      var id := k[|p|..];
      PrefixedKey(node, k);
      StripKeyRecoversId(node, id);
      assert StripAll(k, p) == id;
      GetSpecSlot(w, node, identify, id);
      assert GetSpec(w, node, identify, id).world == w;
      if !l0.thrown {
        forall y | y != id
          ensures Key(node, y) in keys <==> Key(node, y) in pre
        {
          KeysDiffer(node, y, id);
        }
      }
    }
  }

  /**
   * `getAll` under the two conditions: nothing changes; it throws exactly
   * when `get` throws for some identifier; otherwise an identifier is listed
   * exactly when `get` returns an entity for it, and it is listed with that
   * entity. In particular a tombstoned identifier is never listed, and an
   * identifier with both a row and a cached value is listed with the cached one.
   */
  lemma GetAllListsWhatGetReturns(w: World, node: string, identify: IdOf, rowOrder: seq<string>, keyOrder: seq<string>)
    requires Coherent(w, node, identify) && NoNestedPrefix(w, node)
    requires IsEnumeration(rowOrder, Visible(w, node).Keys)
    requires IsEnumeration(keyOrder, CachedKeys(w, node))
    ensures var l := GetAllSpec(w, node, identify, rowOrder, keyOrder);
      && l.world == w
      && (l.thrown <==> exists id :: GetSpec(w, node, identify, id).result.Malformed?)
      && (!l.thrown ==> forall id ::
            && (id in l.merged <==> GetSpec(w, node, identify, id).result.Found?)
            && (id in l.merged ==> l.merged[id] == GetSpec(w, node, identify, id).result.model))
    ensures var l := GetAllSpec(w, node, identify, rowOrder, keyOrder);
      && (!l.thrown ==> forall id :: id in Deleted(w, node) ==> id !in l.merged)
      && (!l.thrown ==> forall id :: id in l.merged && Key(node, id) in w.values ==>
            l.merged[id] == Deserialize(identify, w.values[Key(node, id)].record))
  {
    var t := Visible(w, node);
    RowsMerged(w, node, identify, rowOrder);
    var base := MergeRows(w, node, RowModels(t, identify, rowOrder));
    OverlayMerged(w, node, identify, keyOrder, base);
    var l := OverlayCached(w, node, identify, keyOrder, base);
    forall id
      ensures Key(node, id) in keyOrder <==> Key(node, id) in w.values
    {
      assert Prefix(node) <= Key(node, id);
    }
    forall id
      ensures GetSpec(w, node, identify, id).result.Malformed? ==> Key(node, id) in keyOrder
      ensures id in t <==> id in rowOrder
    {
      GetSpecSlot(w, node, identify, id);
    }
    forall id
      ensures !l.thrown ==>
        && (id in l.merged <==> GetSpec(w, node, identify, id).result.Found?)
        && (id in l.merged ==> l.merged[id] == GetSpec(w, node, identify, id).result.model)
    {
      GetSpecSlot(w, node, identify, id);
    }
    forall id | !l.thrown && id in Deleted(w, node)
      ensures id !in l.merged
    {
      GetSpecSlot(w, node, identify, id);
    }
    forall id | !l.thrown && id in l.merged && Key(node, id) in w.values
      ensures l.merged[id] == Deserialize(identify, w.values[Key(node, id)].record)
    {
      GetSpecSlot(w, node, identify, id);
    }
  }
}

/**
 * What each CacheNode operation does to the two stores, as functions on
 * worlds. The class CacheNodes.CacheNode runs the operations step by step and
 * is proved to have exactly these effects; the lemmas here and in the proof
 * modules state what the effects mean.
 */
module NodeSpec {
  import opened Json
  import opened CacheModel
  import opened GenericTable
  import opened Stores
  import opened NodeKeys

  function Dirty(w: World, node: string): set<string> {
    Members(w.sets, DirtyKey(node))
  }

  function Deleted(w: World, node: string): set<string> {
    Members(w.sets, DeletedKey(node))
  }

  /** The node's dirty set and tombstone set share no identifier. */
  predicate Disjoint(w: World, node: string) {
    Dirty(w, node) !! Deleted(w, node)
  }

  /**
   * The rows the node's own connection reaches: none when no connection can
   * be had or the table does not exist (the SELECT then fails and the error is
   * swallowed).
   */
  function Visible(w: World, node: string): Table {
    if w.down || node !in w.tables then map[] else w.tables[node]
  }

  /** `set(model)`: write the record, clear the tombstone, mark dirty. */
  function SetSpec(w: World, node: string, m: Model): World {
    var key := Key(node, m.id);
    w.(values := w.values[key := Render(m.data)],
       ttl := w.ttl - {key},
       sets := AddMember(RemoveMember(w.sets, DeletedKey(node), m.id), DirtyKey(node), m.id))
  }

  /** `delete(id)`: drop the cached value and the dirty mark, add a tombstone. */
  function DeleteSpec(w: World, node: string, id: string): World {
    var key := Key(node, id);
    w.(values := w.values - {key},
       ttl := w.ttl - {key},
       sets := AddMember(RemoveMember(w.sets, DirtyKey(node), id), DeletedKey(node), id))
  }

  /** `loadFromDatabase(id)`: the entity deserialized from the row, or null. */
  function Load(w: World, node: string, identify: IdOf, id: string): Option<Model> {
    var t := Visible(w, node);
    if id in t then Some(Deserialize(identify, t[id])) else None
  }

  /** What `get` hands back: an entity, null, or the parse exception escaping. */
  datatype Fetched = Found(model: Model) | NotFound | Malformed

  datatype Got = Got(result: Fetched, world: World)

  /** `get(id)`: tombstone, then cached value, then read-through from the table. */
  function GetSpec(w: World, node: string, identify: IdOf, id: string): Got {
    var key := Key(node, id);
    if id in Deleted(w, node) then Got(NotFound, w)
    else if key in w.values then
      match Parse(w.values[key])
      case Parsed(r) => Got(Found(Deserialize(identify, r)), w)
      case _ => Got(Malformed, w)
    else
      match Load(w, node, identify, id)
      case Some(m) => Got(Found(m), SetSpec(w, node, m))
      case None => Got(NotFound, w)
  }

  /** How a phase of `flush` (or the whole of it) ended. */
  datatype Status =
    | Completed   // every identifier of the snapshot was handled
    | SqlFailed   // an SQLException stopped the phase; it was caught and printed
    | Crashed     // another exception escaped `flush`

  datatype Phase = Phase(world: World, status: Status)

  /**
   * `saveToDatabase(conn, model)` on an open connection: upsert
   * `(getIdentifier(), serialize().toString())`; None is an SQLException.
   */
  function SaveRow(w: World, node: string, m: Model): Option<World> {
    if node !in w.tables then None
    else
      match Upsert(w.tables[node], m.id, m.data)
      case None => None
      case Some(t) => Some(w.(tables := w.tables[node := t]))
  }

  /** One iteration of flush's dirty loop: `get`, then save and unmark. */
  function SaveStep(w: World, node: string, identify: IdOf, id: string): Phase {
    var g := GetSpec(w, node, identify, id);
    match g.result
    case Malformed => Phase(g.world, Crashed)
    case NotFound => Phase(g.world, Completed)
    case Found(m) =>
      match SaveRow(g.world, node, m)
      case None => Phase(g.world, SqlFailed)
      case Some(w') => Phase(w'.(sets := RemoveMember(w'.sets, DirtyKey(node), id)), Completed)
  }

  /** The dirty loop run over `ids` in that order, stopping at the first exception. */
  function SaveAll(w: World, node: string, identify: IdOf, ids: seq<string>): Phase
    decreases |ids|
  {
    if ids == [] then Phase(w, Completed)
    else
      var p := SaveAll(w, node, identify, ids[..|ids| - 1]);
      if p.status != Completed then p else SaveStep(p.world, node, identify, ids[|ids| - 1])
  }

  /** The first half of `flush`, for a dirty snapshot iterated as `ids`. */
  function SavePhase(w: World, node: string, identify: IdOf, ids: seq<string>): Phase {
    if ids == [] then Phase(w, Completed)
    else if w.down then Phase(w, SqlFailed)
    else SaveAll(w, node, identify, ids)
  }

  /** One iteration of flush's tombstone loop: delete the row, clear the tombstone. */
  function RemoveStep(w: World, node: string, id: string): Phase {
    if node !in w.tables then Phase(w, SqlFailed)
    else Phase(w.(tables := w.tables[node := RemoveRow(w.tables[node], id)],
                  sets := RemoveMember(w.sets, DeletedKey(node), id)), Completed)
  }

  function RemoveEach(w: World, node: string, ids: seq<string>): Phase
    decreases |ids|
  {
    if ids == [] then Phase(w, Completed)
    else
      var p := RemoveEach(w, node, ids[..|ids| - 1]);
      if p.status != Completed then p else RemoveStep(p.world, node, ids[|ids| - 1])
  }

  /** The second half of `flush`, for a tombstone snapshot iterated as `ids`. */
  function RemovePhase(w: World, node: string, ids: seq<string>): Phase {
    if ids == [] then Phase(w, Completed)
    else if w.down then Phase(w, SqlFailed)
    else RemoveEach(w, node, ids)
  }

  /** `flush()`: the dirty phase, then, unless an exception escaped, the tombstone phase. */
  function FlushSpec(w: World, node: string, identify: IdOf, saveOrder: seq<string>, removeOrder: seq<string>): Phase {
    var p := SavePhase(w, node, identify, saveOrder);
    if p.status == Crashed then p else RemovePhase(p.world, node, removeOrder)
  }

  /** `s` lists every member of `members` exactly once: an iteration order of a set. */
  ghost predicate IsEnumeration(s: seq<string>, members: set<string>) {
    && (forall i, j :: 0 <= i < j < |s| ==> s[i] != s[j])
    && (forall x :: x in s <==> x in members)
  }

  /**
   * `after` is what one `flush` of `node` makes of `before` when the dirty
   * snapshot is iterated as `saveOrder` and the tombstone snapshot as
   * `removeOrder`; `thrown` says whether an exception escaped.
   */
  ghost predicate FlushedBy(before: World, after: World, node: string, identify: IdOf,
                            saveOrder: seq<string>, removeOrder: seq<string>, thrown: bool)
  {
    var p := SavePhase(before, node, identify, saveOrder);
    var f := FlushSpec(before, node, identify, saveOrder, removeOrder);
    && IsEnumeration(saveOrder, Dirty(before, node))
    && (p.status != Crashed ==> IsEnumeration(removeOrder, Deleted(p.world, node)))
    && after == f.world
    && thrown == (f.status == Crashed)
  }

  /** `getAllFromDatabase()` for rows iterated as `ids`. */
  function RowModels(t: Table, identify: IdOf, ids: seq<string>): seq<Model>
    decreases |ids|
  {
    if ids == [] then []
    else
      var last := ids[|ids| - 1];
      RowModels(t, identify, ids[..|ids| - 1]) + if last in t then [Deserialize(identify, t[last])] else []
  }

  /** getAll's first loop: every durable entity not tombstoned, keyed by its identifier. */
  function MergeRows(w: World, node: string, rows: seq<Model>): map<string, Model>
    decreases |rows|
  {
    if rows == [] then map[]
    else
      var merged := MergeRows(w, node, rows[..|rows| - 1]);
      var m := rows[|rows| - 1];
      if m.id in Deleted(w, node) then merged else merged[m.id := m]
  }

  datatype Listing = Listing(merged: map<string, Model>, world: World, thrown: bool)

  /** getAll's second loop: `get` each identifier recovered from a cache key and let it win. */
  function OverlayCached(w: World, node: string, identify: IdOf, keys: seq<string>, merged: map<string, Model>): Listing
    decreases |keys|
  {
    if keys == [] then Listing(merged, w, false)
    else
      var l := OverlayCached(w, node, identify, keys[..|keys| - 1], merged);
      if l.thrown then l
      else
        var id := StripAll(keys[|keys| - 1], Prefix(node));
        var g := GetSpec(l.world, node, identify, id);
        match g.result
        case Malformed => Listing(l.merged, g.world, true)
        case NotFound => Listing(l.merged, g.world, false)
        case Found(m) => Listing(l.merged[id := m], g.world, false)
  }

  /** The string keys `KEYS cache:<node>:*` returns. */
  function CachedKeys(w: World, node: string): set<string> {
    set k | k in w.values && Prefix(node) <= k
  }

  /** `getAll()`, with the table rows iterated as `rowOrder` and the cache keys as `keyOrder`. */
  function GetAllSpec(w: World, node: string, identify: IdOf, rowOrder: seq<string>, keyOrder: seq<string>): Listing {
    OverlayCached(w, node, identify, keyOrder, MergeRows(w, node, RowModels(Visible(w, node), identify, rowOrder)))
  }

  /** Some iteration order of a set. */
  ghost function Enumerate(members: set<string>): (s: seq<string>)
    ensures IsEnumeration(s, members)
    decreases members
  {
    if members == {} then []
    else
      var x :| x in members;
      var rest := Enumerate(members - {x});
      assert x !in rest;
      [x] + rest
  }

  /** An enumeration is empty exactly when its set is. */
  lemma EnumerationEmpty(s: seq<string>, members: set<string>)
    requires IsEnumeration(s, members)
    ensures s == [] <==> members == {}
  {
    if s != [] {
      assert s[0] in members;
    }
    if members != {} {
      var x :| x in members;
      assert x in s;
    }
  }

  /** Enumerations of disjoint sets concatenate to an enumeration of their union. */
  lemma EnumerationConcat(a: seq<string>, x: set<string>, b: seq<string>, y: set<string>)
    requires IsEnumeration(a, x) && IsEnumeration(b, y) && x !! y
    ensures IsEnumeration(a + b, x + y)
  {
    forall i, j | 0 <= i < j < |a + b|
      ensures (a + b)[i] != (a + b)[j]
    {
      if j >= |a| && i < |a| {
        assert (a + b)[i] in x && (a + b)[j] in y;
      }
    }
  }

  /** Once the dirty loop has stopped, the identifiers after the stop play no part. */
  lemma {:induction false} SaveAllStops(w: World, node: string, identify: IdOf, ids: seq<string>, tail: seq<string>)
    requires SaveAll(w, node, identify, ids).status != Completed
    ensures SaveAll(w, node, identify, ids + tail) == SaveAll(w, node, identify, ids)
    decreases |tail|
  {
    if tail != [] {
      assert (ids + tail)[..|ids + tail| - 1] == ids + tail[..|tail| - 1];
      SaveAllStops(w, node, identify, ids, tail[..|tail| - 1]);
    } else {
      assert ids + tail == ids;
    }
  }

  /** Once the tombstone loop has stopped, the identifiers after the stop play no part. */
  lemma {:induction false} RemoveEachStops(w: World, node: string, ids: seq<string>, tail: seq<string>)
    requires RemoveEach(w, node, ids).status != Completed
    ensures RemoveEach(w, node, ids + tail) == RemoveEach(w, node, ids)
    decreases |tail|
  {
    if tail != [] {
      assert (ids + tail)[..|ids + tail| - 1] == ids + tail[..|tail| - 1];
      RemoveEachStops(w, node, ids, tail[..|tail| - 1]);
    } else {
      assert ids + tail == ids;
    }
  }

  /** Once getAll's second loop has thrown, the keys after the throw play no part. */
  lemma {:induction false} OverlayStops(w: World, node: string, identify: IdOf, keys: seq<string>, tail: seq<string>,
                                        merged: map<string, Model>)
    requires OverlayCached(w, node, identify, keys, merged).thrown
    ensures OverlayCached(w, node, identify, keys + tail, merged) == OverlayCached(w, node, identify, keys, merged)
    decreases |tail|
  {
    if tail != [] {
      assert (keys + tail)[..|keys + tail| - 1] == keys + tail[..|tail| - 1];
      OverlayStops(w, node, identify, keys, tail[..|tail| - 1], merged);
    } else {
      assert keys + tail == keys;
    }
  }

  /** The dirty loop over `ids` followed by one more identifier. */
  lemma SaveAllSnoc(w: World, node: string, identify: IdOf, ids: seq<string>, id: string)
    requires SaveAll(w, node, identify, ids).status == Completed
    ensures SaveAll(w, node, identify, ids + [id]) == SaveStep(SaveAll(w, node, identify, ids).world, node, identify, id)
  {
    assert (ids + [id])[..|ids|] == ids;
  }

  lemma RemoveEachSnoc(w: World, node: string, ids: seq<string>, id: string)
    requires RemoveEach(w, node, ids).status == Completed
    ensures RemoveEach(w, node, ids + [id]) == RemoveStep(RemoveEach(w, node, ids).world, node, id)
  {
    assert (ids + [id])[..|ids|] == ids;
  }

  lemma OverlaySnoc(w: World, node: string, identify: IdOf, keys: seq<string>, key: string, merged: map<string, Model>)
    requires !OverlayCached(w, node, identify, keys, merged).thrown
    ensures var l := OverlayCached(w, node, identify, keys, merged);
      var id := StripAll(key, Prefix(node));
      var g := GetSpec(l.world, node, identify, id);
      OverlayCached(w, node, identify, keys + [key], merged) ==
        match g.result
        case Malformed => Listing(l.merged, g.world, true)
        case NotFound => Listing(l.merged, g.world, false)
        case Found(m) => Listing(l.merged[id := m], g.world, false)
  {
    assert (keys + [key])[..|keys|] == keys;
  }
}

/**
 * What the two DatabaseAPI facades do beyond routing a call to a node, as
 * functions on worlds: the single-cell cache over arbitrary tables (one
 * variant per facade), `updateAsync`, `getList`'s filter, and the order in
 * which `shutdown` stops things.
 */
module FacadeSpec {
  import opened Json
  import opened CacheModel
  import opened Stores
  import opened NodeKeys
  import opened NodeSpec

  const GenericPrefix: string := "cache:generic:"

  /** The expiry of a cell value cached on a miss: 30 minutes, in seconds. */
  const CellExpiry: nat := 1800

  /** The current facade's key for a cell: the database is not part of it. */
  function GenericKey(table: string, identifier: string): string {
    GenericPrefix + table + ":" + identifier
  }

  /** The legacy facade's key for a cell. */
  function LegacyGenericKey(database: string, table: string, identifier: string): string {
    GenericPrefix + database + ":" + table + ":" + identifier
  }

  /** The row a cell query reaches: none when no connection can be had or there is no row. */
  function FindRow(w: World, cell: Cell): Option<Row> {
    if !w.down && cell in w.cells then Some(w.cells[cell]) else None
  }

  /** `SETEX key seconds text`. */
  function CacheFor(w: World, key: string, text: Text, seconds: nat): World {
    w.(values := w.values[key := text], ttl := w.ttl[key := seconds])
  }

  /** What the current facade's `getGenericAsync` completes with. */
  datatype CellValue =
    | CellObject(record: Record)   // a JSON object
    | CellNull                     // null
    | CellError                    // the future fails: the column's text is not JSON

  datatype CellRead = CellRead(result: CellValue, world: World)

  /**
   * The current facade's `getGenericAsync`: a cached value that is not empty
   * is parsed without a query (null when it does not parse); otherwise a
   * non-null column is cached for 30 minutes and then parsed, outside any
   * handler, and everything else reads as null without a cache write.
   */
  function GetGenericSpec(w: World, database: string, table: string, keyColumn: string, valueColumn: string,
                          identifier: string): CellRead
  {
    var key := GenericKey(table, identifier);
    if key in w.values && !IsEmptyText(w.values[key]) then
      match Parse(w.values[key])
      case Parsed(r) => CellRead(CellObject(r), w)
      case _ => CellRead(CellNull, w)
    else
      var row := FindRow(w, Cell(database, table, keyColumn, identifier));
      if row.None? || valueColumn !in row.value then CellRead(CellNull, w)
      else
        var text := row.value[valueColumn];
        var cached := CacheFor(w, key, text, CellExpiry);
        match Parse(text)
        case Parsed(r) => CellRead(CellObject(r), cached)
        case Blank => CellRead(CellNull, cached)
        case Invalid => CellRead(CellError, cached)
  }

  /**
   * The current facade's `setGenericAsync`: the rendering goes to the cache
   * key with a plain SET, then the upsert runs; a failed upsert is only
   * logged, so the cached value stays.
   */
  function SetGenericSpec(w: World, database: string, table: string, keyColumn: string, valueColumn: string,
                          identifier: string, data: Record): World
  {
    var key := GenericKey(table, identifier);
    var cached := w.(values := w.values[key := Render(data)], ttl := w.ttl - {key});
    if w.down then cached
    else cached.(cells := UpsertCell(w.cells, Cell(database, table, keyColumn, identifier), valueColumn, Render(data)))
  }

  /** What the legacy facade's `getGenericAsync` completes with (None is null), and the stores after it. */
  datatype LegacyRead = LegacyRead(result: Option<Text>, world: World)

  /**
   * The legacy facade's `getGenericAsync`: any cached value, even an empty
   * one, is returned as is; on a miss a found row's column is cached for 30
   * minutes and returned, a null column being cached as the empty string (the
   * store client's encoding of null) while null is returned.
   */
  function LegacyGetGenericSpec(w: World, database: string, table: string, keyColumn: string, valueColumn: string,
                                identifier: string): LegacyRead
  {
    var key := LegacyGenericKey(database, table, identifier);
    if key in w.values then LegacyRead(Some(w.values[key]), w)
    else
      var row := FindRow(w, Cell(database, table, keyColumn, identifier));
      if row.None? then LegacyRead(None, w)
      else if valueColumn in row.value then
        LegacyRead(Some(row.value[valueColumn]), CacheFor(w, key, row.value[valueColumn], CellExpiry))
      else LegacyRead(None, CacheFor(w, key, Raw(""), CellExpiry))
  }

  /** How `updateAsync`'s future completes. */
  datatype Update =
    | UnknownNode           // IllegalArgumentException: no node of that name
    | UnknownModel          // RuntimeException: `get` found nothing
    | UpdateFailed          // `get` threw
    | Updated(model: Model) // the merged entity was `set`

  datatype UpdateRun = UpdateRun(outcome: Update, world: World)

  /** `updateAsync` on a registered node: `get`, merge the patch, `set` the merged entity. */
  function UpdateSpec(w: World, node: string, identify: IdOf, id: string, updates: Record): UpdateRun {
    var g := GetSpec(w, node, identify, id);
    match g.result
    case Malformed => UpdateRun(UpdateFailed, g.world)
    case NotFound => UpdateRun(UnknownModel, g.world)
    case Found(m) =>
      var u := Deserialize(identify, Merged(m.data, updates));
      UpdateRun(Updated(u), SetSpec(g.world, node, u))
  }

  /**
   * `getList(node, jsonKey, value)` over what `getAll` lists: the entities
   * whose record has `jsonKey` holding the string `value`.
   */
  function Matching(listed: map<string, Model>, jsonKey: string, value: string): (r: map<string, Model>)
    ensures forall id :: id in r <==> id in listed && jsonKey in listed[id].data && listed[id].data[jsonKey] == Str(value)
    ensures forall id :: id in r ==> r[id] == listed[id]
  {
    map id | id in listed && jsonKey in listed[id].data && listed[id].data[jsonKey] == Str(value) :: listed[id]
  }

  /** What `shutdown` does to the facade's executors and connections, in order. */
  datatype Event =
    | SchedulerStopped   // `scheduler.shutdown()`
    | SchedulerForced    // `scheduler.shutdownNow()`
    | FinalFlush         // `cacheService.flushAll()`
    | ExecutorStopped    // `dbExecutor.shutdown()`
    | StoreDisconnected  // `redis.disconnect()`
    | PoolClosed         // `dbManager.shutdown()`

  /**
   * The current facade's shutdown steps: the scheduler is forced down unless
   * it terminated within five seconds; an exception escaping the final flush
   * skips the rest.
   */
  function ShutdownSteps(terminated: bool, thrown: bool): seq<Event> {
    [SchedulerStopped] + (if terminated then [] else [SchedulerForced]) + [FinalFlush]
      + (if thrown then [] else [ExecutorStopped, StoreDisconnected, PoolClosed])
  }

  /** The legacy facade's shutdown steps. */
  function LegacyShutdownSteps(thrown: bool): seq<Event> {
    [SchedulerStopped, ExecutorStopped, FinalFlush] + (if thrown then [] else [StoreDisconnected, PoolClosed])
  }
}

/**
 * The durable table of a generic cache node: `(id VARCHAR(64) PRIMARY KEY,
 * data LONGTEXT)`, one per node, named after the node. Because `id` is the
 * primary key, a table is a map from id to the record its `data` column holds.
 * The statements GenericCacheNode issues are functions on that map.
 */
module GenericTable {
  import opened Json

  type Table = map<string, Record>

  /** The width of the `id` column. */
  const MaxIdLength: nat := 64

  /**
   * `INSERT INTO t (id, data) VALUES (?, ?) ON DUPLICATE KEY UPDATE data = ?`.
   * A key longer than the column is rejected by the server (None).
   */
  function Upsert(t: Table, id: string, data: Record): (r: Option<Table>)
    ensures r.Some? <==> |id| <= MaxIdLength
  {
    if |id| > MaxIdLength then None else Some(t[id := data])
  }

  /** `DELETE FROM t WHERE id = ?`. */
  function RemoveRow(t: Table, id: string): Table {
    t - {id}
  }

  /** `CREATE TABLE IF NOT EXISTS name (...)` on the set of existing tables. */
  function CreateTable(tables: map<string, Table>, name: string): map<string, Table> {
    if name in tables then tables else tables[name := map[]]
  }

  /**
   * An accepted upsert leaves the row for `id` holding `data` whether or not it
   * existed, touches no other row, and adds a row only when `id` was new.
   */
  lemma UpsertStoresRow(t: Table, id: string, data: Record)
    requires |id| <= MaxIdLength
    ensures Upsert(t, id, data).Some?
    ensures var t' := Upsert(t, id, data).value;
      && id in t' && t'[id] == data
      && (forall other :: other != id ==> (other in t' <==> other in t))
      && (forall other :: other != id && other in t ==> t'[other] == t[other])
      && |t'| == if id in t then |t| else |t| + 1
  {
    var t' := t[id := data];
    if id in t {
      assert t'.Keys == t.Keys;
    } else {
      assert t'.Keys == t.Keys + {id};
    }
  }

  /** Saving the same `(id, data)` twice equals saving it once. */
  lemma UpsertIdempotent(t: Table, id: string, data: Record)
    requires |id| <= MaxIdLength
    ensures Upsert(Upsert(t, id, data).value, id, data) == Upsert(t, id, data)
  {
    assert t[id := data][id := data] == t[id := data];
  }

  /** Creating a table is idempotent and leaves the rows of every existing table alone. */
  lemma CreateTableIdempotent(tables: map<string, Table>, name: string)
    ensures name in CreateTable(tables, name)
    ensures CreateTable(CreateTable(tables, name), name) == CreateTable(tables, name)
    ensures forall t :: t in tables ==> t in CreateTable(tables, name) && CreateTable(tables, name)[t] == tables[t]
  {
  }
}

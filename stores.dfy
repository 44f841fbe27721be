/**
 * The two stores the cache layer sits between, reduced to the state the core
 * reads and writes.
 *
 * FastStore stands for the key-value store: string keys (with the expiry some
 * of them carry) and set keys. Database stands for the relational store: the
 * generic nodes' tables, the arbitrary tables the cell cache reads and
 * writes, and whether a connection can be had at all. A `World` is a snapshot
 * of both; the core's specifications are functions on worlds.
 */
module Stores {
  import opened Json
  import opened GenericTable

  /** One row of an arbitrary table, found by `database`, `table`, key column and key value. */
  datatype Cell = Cell(database: string, table: string, keyColumn: string, identifier: string)

  /** The row's columns; a column that is absent holds SQL NULL. */
  type Row = map<string, Text>

  datatype World = World(
    values: map<string, Text>,         // string keys of the fast store
    ttl: map<string, nat>,             // keys carrying an expiry, in seconds
    sets: map<string, set<string>>,    // set keys of the fast store
    tables: map<string, Table>,        // the generic nodes' tables, by name
    cells: map<Cell, Row>,             // rows of the tables the cell cache addresses
    down: bool)                        // no database connection can be obtained

  /** `SMEMBERS key`: an absent set key reads as the empty set. */
  function Members(sets: map<string, set<string>>, key: string): set<string> {
    if key in sets then sets[key] else {}
  }

  /** `SADD key member`. */
  function AddMember(sets: map<string, set<string>>, key: string, member: string): (r: map<string, set<string>>)
    ensures forall k :: Members(r, k) == if k == key then Members(sets, k) + {member} else Members(sets, k)
  {
    sets[key := Members(sets, key) + {member}]
  }

  /** `SREM key member`: a set left empty disappears, as the store does with it. */
  function RemoveMember(sets: map<string, set<string>>, key: string, member: string): (r: map<string, set<string>>)
    ensures forall k :: Members(r, k) == if k == key then Members(sets, k) - {member} else Members(sets, k)
  {
    var rest := Members(sets, key) - {member};
    if rest == {} then sets - {key} else sets[key := rest]
  }

  /** Removing a member that is not there changes nothing. */
  lemma RemoveAbsentMember(sets: map<string, set<string>>, key: string, member: string)
    requires member !in Members(sets, key)
    requires key in sets ==> sets[key] != {}
    ensures RemoveMember(sets, key, member) == sets
  {
    if key in sets {
      assert Members(sets, key) - {member} == sets[key];
    }
  }

  class FastStore {
    var values: map<string, Text>
    var ttl: map<string, nat>
    var sets: map<string, set<string>>

    constructor ()
      ensures values == map[] && ttl == map[] && sets == map[]
    {
      values, ttl, sets := map[], map[], map[];
    }

    /** `GET key`. */
    method Get(key: string) returns (r: Option<Text>)
      ensures r == if key in values then Some(values[key]) else None
    {
      r := if key in values then Some(values[key]) else None;
    }

    /** `SET key value`: a plain SET drops any expiry the key had. */
    method Set(key: string, value: Text)
      modifies this
      ensures values == old(values)[key := value] && ttl == old(ttl) - {key} && sets == old(sets)
    {
      values := values[key := value];
      ttl := ttl - {key};
    }

    /** `SETEX key seconds value`. */
    method SetEx(key: string, seconds: nat, value: Text)
      modifies this
      ensures values == old(values)[key := value] && ttl == old(ttl)[key := seconds] && sets == old(sets)
    {
      values := values[key := value];
      ttl := ttl[key := seconds];
    }

    /** `DEL key` on a string key. */
    method Del(key: string)
      modifies this
      ensures values == old(values) - {key} && ttl == old(ttl) - {key} && sets == old(sets)
    {
      values := values - {key};
      ttl := ttl - {key};
    }

    method SAdd(key: string, member: string)
      modifies this
      ensures sets == AddMember(old(sets), key, member) && values == old(values) && ttl == old(ttl)
    {
      sets := AddMember(sets, key, member);
    }

    method SRem(key: string, member: string)
      modifies this
      ensures sets == RemoveMember(old(sets), key, member) && values == old(values) && ttl == old(ttl)
    {
      sets := RemoveMember(sets, key, member);
    }

    method SMembers(key: string) returns (r: set<string>)
      ensures r == Members(sets, key)
    {
      r := Members(sets, key);
    }

    method SIsMember(key: string, member: string) returns (r: bool)
      ensures r <==> member in Members(sets, key)
    {
      r := member in Members(sets, key);
    }

    /** `KEYS prefix*`: every string key that starts with `prefix`. */
    method KeysWithPrefix(prefix: string) returns (r: set<string>)
      ensures forall k :: k in r <==> k in values && prefix <= k
    {
      r := set k | k in values && prefix <= k;
    }
  }

  /**
   * `INSERT INTO database.table (keyColumn, column) VALUES (?, ?) ON DUPLICATE
   * KEY UPDATE column = ?`, the key column being the table's key: an existing
   * row gets the new column value, otherwise a row holding the key and the
   * value is added.
   */
  function UpsertCell(cells: map<Cell, Row>, cell: Cell, column: string, value: Text): (r: map<Cell, Row>)
    ensures cell in r && column in r[cell] && r[cell][column] == value
    ensures forall c :: c != cell ==> (c in r <==> c in cells) && (c in cells ==> r[c] == cells[c])
    ensures cell in cells ==> forall k :: k != column ==> (k in r[cell] <==> k in cells[cell]) && (k in cells[cell] ==> r[cell][k] == cells[cell][k])
  {
    var row := if cell in cells then cells[cell] else map[cell.keyColumn := Raw(cell.identifier)];
    cells[cell := row[column := value]]
  }

  class Database {
    var tables: map<string, Table>
    var cells: map<Cell, Row>
    var down: bool

    constructor (tables: map<string, Table>, cells: map<Cell, Row>, down: bool)
      ensures this.tables == tables && this.cells == cells && this.down == down
    {
      this.tables, this.cells, this.down := tables, cells, down;
    }

    /** `SELECT ... FROM database.table WHERE keyColumn = ? LIMIT 1`: the row, if a connection and a row are there. */
    method SelectCell(cell: Cell) returns (r: Option<Row>)
      ensures r.Some? <==> !down && cell in cells
      ensures r.Some? ==> r.value == cells[cell]
    {
      r := if !down && cell in cells then Some(cells[cell]) else None;
    }

    /** The upsert of one column of an arbitrary table; it fails without a connection. */
    method StoreCell(cell: Cell, column: string, value: Text) returns (stored: bool)
      modifies this
      ensures stored <==> !old(down)
      ensures cells == if stored then UpsertCell(old(cells), cell, column, value) else old(cells)
      ensures tables == old(tables) && down == old(down)
    {
      stored := !down;
      if stored {
        cells := UpsertCell(cells, cell, column, value);
      }
    }
  }

  /** The snapshot of both stores. */
  ghost function WorldOf(store: FastStore, db: Database): World
    reads store, db
  {
    World(store.values, store.ttl, store.sets, db.tables, db.cells, db.down)
  }
}

/**
 * The local database as the generic routes see it: a catalog of column
 * names per table, the rows of each table keyed by their `id`, the
 * sequence that hands out new ids, and the log of statements sent, each
 * with its SQL text and its parameter list.
 */
module Store {
  import opened Data
  import opened SqlText

  /** A stored row: its values by column name. Its id is the key it is stored under. */
  type Row = map<string, Value>

  /** The rows of `table`, by id; none for a table that has no rows map. */
  function RowsOf(tables: map<string, map<nat, Row>>, table: string): map<nat, Row>
  {
    if table in tables then tables[table] else map[]
  }

  /** A statement as the driver receives it: SQL text and parameters. */
  datatype Statement = Statement(sql: string, params: seq<Json>)

  /** The catalog's columns of `table`, in ordinal order; none for an unknown table. */
  function Lookup(catalog: map<string, seq<string>>, table: string): seq<string>
  {
    if table in catalog then catalog[table] else []
  }

  /**
   * Whether the database has relation `table` with every column of
   * `names`. PostgreSQL rejects a statement that names an unknown relation
   * or column, and the route then replies 500.
   */
  predicate Resolves(catalog: map<string, seq<string>>, table: string, names: seq<string>)
  {
    table in catalog && forall c :: c in names ==> c in catalog[table]
  }

  /**
   * The columns the catalog lists for a table resolve, with `id` among
   * them exactly when the table has an `id` column; for a table it does
   * not list, nothing resolves.
   */
  lemma ResolvesOwnColumns(catalog: map<string, seq<string>>, table: string)
    ensures Resolves(catalog, table, ["id"] + Lookup(catalog, table)) <==>
      table in catalog && "id" in catalog[table]
  {
    var names := ["id"] + Lookup(catalog, table);
    if table in catalog && "id" in catalog[table] {
      forall c | c in names ensures c in catalog[table] {
        assert c == "id" || c in Lookup(catalog, table);
      }
    }
    if Resolves(catalog, table, names) {
      assert "id" in names;
    }
  }

  /**
   * Column `c` of the row stored under `id`: the id itself, the stored
   * value, or NULL for a column the row was never given a value for.
   */
  function ColumnValue(id: nat, row: Row, c: string): Value
  {
    if c == "id" then Scalar(JNumber(id)) else if c in row then row[c] else Scalar(JNull)
  }

  /** The tuple a SELECT of columns `cols` returns for one row. */
  function Project(id: nat, row: Row, cols: seq<string>): (t: seq<Value>)
    ensures |t| == |cols|
  {
    seq(|cols|, i requires 0 <= i < |cols| => ColumnValue(id, row, cols[i]))
  }

  /** Writes `vals[i]` into column `keys[i]`, left to right. */
  function Assign(row: Row, keys: seq<string>, vals: seq<Json>): Row
    requires |keys| == |vals|
    decreases |keys|
  {
    if keys == [] then row else Assign(row[keys[0] := Scalar(vals[0])], keys[1..], vals[1..])
  }

  /**
   * After the assignments, each assigned column holds its last assigned
   * value and every other column is as before.
   */
  lemma {:induction false} AssignSpec(row: Row, keys: seq<string>, vals: seq<Json>)
    requires |keys| == |vals|
    ensures var r := Assign(row, keys, vals);
      r.Keys == row.Keys + set k | k in keys
    ensures forall c :: c !in keys && c in row ==> Assign(row, keys, vals)[c] == row[c]
    ensures forall i :: 0 <= i < |keys| && keys[i] !in keys[i + 1..] ==>
      Assign(row, keys, vals)[keys[i]] == Scalar(vals[i])
    decreases |keys|
  {
    if keys != [] {
      var row' := row[keys[0] := Scalar(vals[0])];
      AssignSpec(row', keys[1..], vals[1..]);
      assert forall c :: c in keys <==> c == keys[0] || c in keys[1..];
      forall i | 0 < i < |keys| && keys[i] !in keys[i + 1..]
        ensures Assign(row, keys, vals)[keys[i]] == Scalar(vals[i])
      {
        assert keys[1..][i - 1] == keys[i] && vals[1..][i - 1] == vals[i];
        assert keys[1..][i..] == keys[i + 1..];
      }
    }
  }

  // The statements the routes send, text and parameters.

  function CatalogStatement(table: string): Statement
  {
    Statement(CatalogSql(), [JString(table)])
  }

  function SelectPageStatement(table: string, cols: seq<string>, limit: int): Statement
  {
    Statement(SelectPageSql(table, cols), [JNumber(limit)])
  }

  function SelectByIdStatement(table: string, cols: seq<string>, id: nat): Statement
  {
    Statement(SelectByIdSql(table, cols), [JNumber(id)])
  }

  function InsertStatement(table: string, keys: seq<string>, vals: seq<Json>): Statement
  {
    Statement(InsertSql(table, keys), vals)
  }

  function UpdateStatement(table: string, keys: seq<string>, vals: seq<Json>, id: nat): Statement
  {
    Statement(UpdateSql(table, keys), vals + [JNumber(id)])
  }

  function DeleteStatement(table: string, id: nat): Statement
  {
    Statement(DeleteSql(table), [JNumber(id)])
  }

  /** The driver pairs the `%s` directives of the text with the parameters one to one. */
  predicate Aligned(s: Statement)
  {
    Directives(s.sql) == |s.params|
  }

  /** The largest value of a PostgreSQL `bigint`, the type `LIMIT` takes. */
  const MaxBigint: int := 0x7FFF_FFFF_FFFF_FFFF

  /**
   * Whether statement `s`, which names the columns `names` of `table`,
   * goes through: psycopg2 formats it only when its directives match its
   * parameters, and PostgreSQL runs it only when the relation and the
   * columns exist.
   */
  predicate Accepted(catalog: map<string, seq<string>>, table: string, names: seq<string>, s: Statement)
  {
    Aligned(s) && Resolves(catalog, table, names)
  }

  /**
   * Whether the page SELECT goes through: an accepted statement with a
   * column to order by and a limit that is a non-negative `bigint`.
   */
  predicate PageAccepted(catalog: map<string, seq<string>>, table: string, cols: seq<string>, limit: int)
  {
    0 <= limit <= MaxBigint && cols != [] && Accepted(catalog, table, cols, SelectPageStatement(table, cols, limit))
  }

  predicate AllAligned(log: seq<Statement>)
  {
    forall i :: 0 <= i < |log| ==> Aligned(log[i])
  }

  lemma AllAlignedAppend(log: seq<Statement>, more: seq<Statement>)
    requires AllAligned(log) && AllAligned(more)
    ensures AllAligned(log + more)
  {
    forall i | 0 <= i < |log + more| ensures Aligned((log + more)[i]) {
      if i >= |log| {
        assert (log + more)[i] == more[i - |log|];
      }
    }
  }

  /**
   * Every statement the routes build takes as many parameters as its text
   * has directives, as long as neither the table nor any column name holds
   * a `%`.
   */
  lemma StatementsAligned(table: string, cols: seq<string>, vals: seq<Json>, limit: int, id: nat)
    requires '%' !in table && NoPercent(cols) && |vals| == |cols|
    ensures Aligned(CatalogStatement(table))
    ensures Aligned(SelectPageStatement(table, cols, limit))
    ensures Aligned(SelectByIdStatement(table, cols, id))
    ensures Aligned(InsertStatement(table, cols, vals))
    ensures Aligned(UpdateStatement(table, cols, vals, id))
    ensures Aligned(DeleteStatement(table, id))
  {
    CatalogDirectives();
    SelectPageDirectives(table, cols);
    SelectByIdDirectives(table, cols);
    InsertDirectives(table, cols);
    UpdateDirectives(table, cols);
    DeleteDirectives(table);
  }

  /**
   * The local database. Its catalog is fixed for its lifetime; its rows,
   * its id sequence and the statement log change as statements run.
   */
  class Database {
    /** Whether a connection can be opened at all. */
    const reachable: bool
    /** The ordered column names of each table, as the catalog lists them. */
    const catalog: map<string, seq<string>>
    var tables: map<string, map<nat, Row>>
    /** The next id the sequence hands out. */
    var serial: nat
    var log: seq<Statement>

    /**
     * Rows are stored only for relations the catalog lists, and every
     * stored id was handed out earlier by the sequence.
     */
    ghost predicate Valid()
      reads this
    {
      tables.Keys <= catalog.Keys &&
      forall t, id :: t in tables && id in tables[t] ==> id < serial
    }

    constructor (reachable: bool, catalog: map<string, seq<string>>,
                 tables: map<string, map<nat, Row>>, serial: nat)
      requires tables.Keys <= catalog.Keys
      requires forall t, id :: t in tables && id in tables[t] ==> id < serial
      ensures Valid()
      ensures this.reachable == reachable && this.catalog == catalog
      ensures this.tables == tables && this.serial == serial && log == []
    {
      this.reachable := reachable;
      this.catalog := catalog;
      this.tables := tables;
      this.serial := serial;
      log := [];
    }

    /** The rows of `table`, by id. */
    function Rows(table: string): map<nat, Row>
      reads this
    {
      RowsOf(tables, table)
    }

    /** The catalog query: the column names of `table`, in ordinal order. */
    method QueryCatalog(table: string) returns (cols: seq<string>)
      requires reachable
      modifies this`log
      ensures cols == Lookup(catalog, table)
      ensures log == old(log) + [CatalogStatement(table)]
    {
      cols := Lookup(catalog, table);
      log := log + [CatalogStatement(table)];
    }

    /**
     * `SELECT cols FROM table ORDER BY 1 DESC LIMIT limit`. The driver
     * rejects misaligned parameters; the database rejects a limit outside
     * `bigint` or negative, an unknown relation or column, and an empty
     * select list, which has no column 1 to order by. Otherwise it
     * returns `limit` rows, or all of them if there are fewer, each one a
     * different stored row; `ids` says which.
     */
    method SelectPage(table: string, cols: seq<string>, limit: int)
      returns (r: Option<seq<seq<Value>>>, ghost ids: seq<nat>)
      requires reachable
      modifies this`log
      ensures log == old(log) + [SelectPageStatement(table, cols, limit)]
      ensures r.None? <==> !PageAccepted(catalog, table, cols, limit)
      ensures r.Some? ==> IsPage(r.value, ids, Rows(table), cols, limit)
    {
      log := log + [SelectPageStatement(table, cols, limit)];
      ids := [];
      if !PageAccepted(catalog, table, cols, limit) {
        r := None;
        return;
      }
      var rows := Rows(table);
      var n := if limit < |rows.Keys| then limit else |rows.Keys|;
      var remaining := rows.Keys;
      var page := [];
      while |page| < n
        invariant |page| == |ids| <= n
        invariant remaining <= rows.Keys
        invariant |remaining| == |rows.Keys| - |ids|
        invariant forall k :: 0 <= k < |ids| ==> ids[k] in rows && ids[k] !in remaining
        invariant forall k :: 0 <= k < |ids| ==> page[k] == Project(ids[k], rows[ids[k]], cols)
        invariant forall j, k :: 0 <= j < k < |ids| ==> ids[j] != ids[k]
      {
        var id :| id in remaining;
        page := page + [Project(id, rows[id], cols)];
        ids := ids + [id];
        remaining := remaining - {id};
      }
      r := Some(page);
    }

    /**
     * `SELECT cols FROM table WHERE id=id`: `ok` tells whether the driver
     * and the database accept the statement; then the row's tuple, or None when there is
     * no such row.
     */
    method SelectById(table: string, cols: seq<string>, id: nat) returns (ok: bool, r: Option<seq<Value>>)
      requires reachable
      modifies this`log
      ensures log == old(log) + [SelectByIdStatement(table, cols, id)]
      ensures ok == Accepted(catalog, table, ["id"] + cols, SelectByIdStatement(table, cols, id))
      ensures r == if ok && id in Rows(table) then Some(Project(id, Rows(table)[id], cols)) else None
    {
      log := log + [SelectByIdStatement(table, cols, id)];
      ok := Accepted(catalog, table, ["id"] + cols, SelectByIdStatement(table, cols, id));
      if ok && id in Rows(table) {
        r := Some(Project(id, Rows(table)[id], cols));
      } else {
        r := None;
      }
    }

    /**
     * `INSERT ... RETURNING id`: when the statement is aligned and the
     * relation has the given columns and an `id`, stores a new row holding the given columns under a
     * fresh id from the sequence and returns that id; otherwise the
     * statement is rejected and nothing changes.
     */
    method Insert(table: string, keys: seq<string>, vals: seq<Json>) returns (id: Option<nat>)
      requires reachable && Valid()
      requires keys != [] && |keys| == |vals|
      modifies this`tables, this`serial, this`log
      ensures Valid()
      ensures log == old(log) + [InsertStatement(table, keys, vals)]
      ensures id.Some? == Accepted(catalog, table, ["id"] + keys, InsertStatement(table, keys, vals))
      ensures id.None? ==> tables == old(tables) && serial == old(serial)
      ensures id.Some? ==>
        id.value == old(serial) && serial == old(serial) + 1 && id.value !in old(Rows(table)) &&
        tables == old(tables)[table := old(Rows(table))[id.value := Assign(map[], keys, vals)]]
    {
      log := log + [InsertStatement(table, keys, vals)];
      if !Accepted(catalog, table, ["id"] + keys, InsertStatement(table, keys, vals)) {
        return None;
      }
      id := Some(serial);
      tables := tables[table := Rows(table)[serial := Assign(map[], keys, vals)]];
      serial := serial + 1;
    }

    /**
     * `UPDATE ... WHERE id=id`: when the statement is aligned and the
     * relation has the given columns and an `id`, assigns the columns of
     * that row, if there is one; otherwise the statement is rejected and
     * nothing changes.
     */
    method Update(table: string, keys: seq<string>, vals: seq<Json>, id: nat) returns (ok: bool)
      requires reachable
      requires keys != [] && |keys| == |vals|
      modifies this`tables, this`log
      ensures old(Valid()) ==> Valid()
      ensures ok == Accepted(catalog, table, ["id"] + keys, UpdateStatement(table, keys, vals, id))
      ensures tables == if ok && id in old(Rows(table))
        then old(tables)[table := old(Rows(table))[id := Assign(old(Rows(table))[id], keys, vals)]]
        else old(tables)
      ensures log == old(log) + [UpdateStatement(table, keys, vals, id)]
    {
      log := log + [UpdateStatement(table, keys, vals, id)];
      ok := Accepted(catalog, table, ["id"] + keys, UpdateStatement(table, keys, vals, id));
      if ok && id in Rows(table) {
        tables := tables[table := Rows(table)[id := Assign(Rows(table)[id], keys, vals)]];
      }
    }

    /**
     * `DELETE ... WHERE id=id`: when the statement is aligned and the
     * relation has an `id` column, removes that row, if there is one;
     * otherwise the statement is rejected and nothing changes.
     */
    method Delete(table: string, id: nat) returns (ok: bool)
      requires reachable
      modifies this`tables, this`log
      ensures old(Valid()) ==> Valid()
      ensures ok == Accepted(catalog, table, ["id"], DeleteStatement(table, id))
      ensures tables == if ok && table in old(tables) then old(tables)[table := old(tables)[table] - {id}] else old(tables)
      ensures log == old(log) + [DeleteStatement(table, id)]
    {
      log := log + [DeleteStatement(table, id)];
      ok := Accepted(catalog, table, ["id"], DeleteStatement(table, id));
      if ok && table in tables {
        tables := tables[table := tables[table] - {id}];
      }
    }
  }

  /**
   * `page` holds as many rows as the limit allows, each the projection of
   * a different stored row, the one `ids` names at the same position.
   */
  ghost predicate IsPage(page: seq<seq<Value>>, ids: seq<nat>, rows: map<nat, Row>, cols: seq<string>, limit: int)
  {
    |page| == |ids| &&
    |page| == (if limit < |rows.Keys| then limit else |rows.Keys|) &&
    (forall k :: 0 <= k < |ids| ==> ids[k] in rows && page[k] == Project(ids[k], rows[ids[k]], cols)) &&
    (forall j, k :: 0 <= j < k < |ids| ==> ids[j] != ids[k])
  }
}

/**
 * The generic table routes: list and create on `/api/<table>`, and read,
 * update and delete on `/api/<table>/<id>`. Each route checks the
 * allowlist first, then opens the local database, asks the column cache
 * for the table's columns and only then runs its statements.
 */
module Crud {
  import opened Data
  import opened Allowlist
  import opened Payloads
  import opened SqlText
  import opened Serializer
  import opened Store
  import opened ColumnCache

  /** The JSON bodies of successful replies. */
  datatype Body =
    | RowList(rows: seq<JsonRow>)
    | RowObject(row: JsonRow)
    | Deleted(id: nat)

  /** A reply; errors carry the text of their `error` field. */
  datatype Response =
    | Ok(body: Body)
    | BadRequest(error: string)
    | NotFound(error: string)
    | ServerError

  /** The `limit` query argument: absent, an integer, or text `int()` refuses. */
  datatype LimitArg = Absent | Parsed(n: int) | Unparsable

  /** The page size asked for; 50 when absent, none when unparsable. */
  function LimitValue(arg: LimitArg): Option<int>
  {
    match arg
    case Absent => Some(50)
    case Parsed(n) => Some(n)
    case Unparsable => None
  }

  /**
   * The reply of a read of `id` against rows `rows`: 500 when the SELECT
   * is rejected (its parameters misaligned with its directives, an unknown
   * relation, or a column or `id` it lacks),
   * else the row, or 404 when no tuple comes back or an empty one does (a
   * select of no columns).
   */
  function ReadResponse(catalog: map<string, seq<string>>, table: string, cols: seq<string>,
                        rows: map<nat, Row>, id: nat): Response
  {
    if !Accepted(catalog, table, ["id"] + cols, SelectByIdStatement(table, cols, id)) then ServerError
    else if id in rows && cols != [] then Ok(RowObject(JsonRowOf(cols, Project(id, rows[id], cols))))
    else NotFound("not found")
  }

  /**
   * The page reply serialises, one by one, the tuples of a page the database
   * may return (`Store.IsPage`): as many as the limit allows, different
   * rows each.
   */
  ghost predicate IsPageReply(objs: seq<JsonRow>, page: seq<seq<Value>>, ids: seq<nat>, rows: map<nat, Row>,
                              cols: seq<string>, limit: int)
  {
    IsPage(page, ids, rows, cols, limit) &&
    |objs| == |page| &&
    forall k :: 0 <= k < |page| ==> objs[k] == JsonRowOf(cols, page[k])
  }

  /** No table of the catalog has a column name holding `%`. */
  predicate PlainCatalog(catalog: map<string, seq<string>>)
  {
    forall t :: t in catalog ==> NoPercent(catalog[t])
  }

  /**
   * What keeps every statement well formed for the driver: the cache
   * agrees with the catalog, no column name holds `%`, and every statement
   * sent so far had its parameters aligned.
   */
  predicate Sound(entries: Entries, catalog: map<string, seq<string>>, log: seq<Statement>)
  {
    Coherent(entries, catalog) && PlainCatalog(catalog) && AllAligned(log)
  }

  /** Keys taken from the columns hold no `%` when the columns do not. */
  lemma AcceptedNoPercent(keys: seq<string>, cols: seq<string>)
    requires NoPercent(cols)
    ensures NoPercent(AcceptedKeys(keys, cols))
  {
    var ks := AcceptedKeys(keys, cols);
    forall i | 0 <= i < |ks| ensures '%' !in ks[i] {
      assert ks[i] in ks;
      var j :| 0 <= j < |cols| && cols[j] == ks[i];
    }
  }

  /**
   * A request on an allowed table that looks up its columns and then
   * sends aligned statements `more` keeps the state sound.
   */
  lemma SoundStep(entries: Entries, catalog: map<string, seq<string>>, log: seq<Statement>,
                  table: string, more: seq<Statement>)
    requires Sound(entries, catalog, log) && TableAllowed(table) && AllAligned(more)
    ensures Sound(After(entries, catalog, table), catalog, log + CatalogTraffic(entries, table) + more)
  {
    AllowedTableIsPlain(table);
    CatalogDirectives();
    AllAlignedAppend(log, CatalogTraffic(entries, table));
    AllAlignedAppend(log + CatalogTraffic(entries, table), more);
  }

  /** The columns a sound cache gives hold no `%`. */
  lemma SoundColumns(entries: Entries, catalog: map<string, seq<string>>, table: string)
    requires Coherent(entries, catalog) && PlainCatalog(catalog)
    ensures NoPercent(ColumnsFor(entries, catalog, table))
  {
  }

  // One lemma per route: the statements the route sends keep the state sound.

  lemma ListSound(entries: Entries, catalog: map<string, seq<string>>, log: seq<Statement>,
                  table: string, limit: int)
    requires Sound(entries, catalog, log) && TableAllowed(table)
    ensures
      var cols := ColumnsFor(entries, catalog, table);
        Sound(After(entries, catalog, table), catalog,
          log + CatalogTraffic(entries, table) + [SelectPageStatement(table, cols, limit)])
  {
    var cols := ColumnsFor(entries, catalog, table);
    SoundColumns(entries, catalog, table);
    AllowedTableIsPlain(table);
    SelectPageDirectives(table, cols);
    SoundStep(entries, catalog, log, table, [SelectPageStatement(table, cols, limit)]);
  }

  lemma LookupOnlySound(entries: Entries, catalog: map<string, seq<string>>, log: seq<Statement>, table: string)
    requires Sound(entries, catalog, log) && TableAllowed(table)
    ensures Sound(After(entries, catalog, table), catalog, log + CatalogTraffic(entries, table))
  {
    SoundStep(entries, catalog, log, table, []);
    assert log + CatalogTraffic(entries, table) + [] == log + CatalogTraffic(entries, table);
  }

  lemma ReadSound(entries: Entries, catalog: map<string, seq<string>>, log: seq<Statement>,
                  table: string, id: nat)
    requires Sound(entries, catalog, log) && TableAllowed(table)
    ensures
      var cols := ColumnsFor(entries, catalog, table);
        Sound(After(entries, catalog, table), catalog,
          log + CatalogTraffic(entries, table) + [SelectByIdStatement(table, cols, id)])
  {
    var cols := ColumnsFor(entries, catalog, table);
    SoundColumns(entries, catalog, table);
    AllowedTableIsPlain(table);
    SelectByIdDirectives(table, cols);
    SoundStep(entries, catalog, log, table, [SelectByIdStatement(table, cols, id)]);
  }

  lemma CreateSound(entries: Entries, catalog: map<string, seq<string>>, log: seq<Statement>,
                    table: string, p: Payload, id: nat)
    requires Sound(entries, catalog, log) && TableAllowed(table)
    ensures
      var cols := ColumnsFor(entries, catalog, table);
        var keys := AcceptedKeys(Keys(p), cols);
        var traffic := log + CatalogTraffic(entries, table);
        var insert := InsertStatement(table, keys, Values(p, keys));
        Sound(After(entries, catalog, table), catalog, traffic + [insert]) &&
        Sound(After(entries, catalog, table), catalog, traffic + [insert, SelectByIdStatement(table, cols, id)])
  {
    var cols := ColumnsFor(entries, catalog, table);
    var keys := AcceptedKeys(Keys(p), cols);
    SoundColumns(entries, catalog, table);
    AcceptedNoPercent(Keys(p), cols);
    AllowedTableIsPlain(table);
    InsertDirectives(table, keys);
    SelectByIdDirectives(table, cols);
    SoundStep(entries, catalog, log, table, [InsertStatement(table, keys, Values(p, keys))]);
    SoundStep(entries, catalog, log, table,
      [InsertStatement(table, keys, Values(p, keys)), SelectByIdStatement(table, cols, id)]);
  }

  lemma UpdateSound(entries: Entries, catalog: map<string, seq<string>>, log: seq<Statement>,
                    table: string, p: Payload, id: nat)
    requires Sound(entries, catalog, log) && TableAllowed(table)
    ensures
      var cols := ColumnsFor(entries, catalog, table);
        var keys := AcceptedKeys(Keys(p), cols);
        var traffic := log + CatalogTraffic(entries, table);
        var update := UpdateStatement(table, keys, Values(p, keys), id);
        Sound(After(entries, catalog, table), catalog, traffic + [update]) &&
        Sound(After(entries, catalog, table), catalog, traffic + [update, SelectByIdStatement(table, cols, id)])
  {
    var cols := ColumnsFor(entries, catalog, table);
    var keys := AcceptedKeys(Keys(p), cols);
    SoundColumns(entries, catalog, table);
    AcceptedNoPercent(Keys(p), cols);
    AllowedTableIsPlain(table);
    UpdateDirectives(table, keys);
    SelectByIdDirectives(table, cols);
    SoundStep(entries, catalog, log, table, [UpdateStatement(table, keys, Values(p, keys), id)]);
    SoundStep(entries, catalog, log, table,
      [UpdateStatement(table, keys, Values(p, keys), id), SelectByIdStatement(table, cols, id)]);
  }

  lemma DeleteSound(entries: Entries, catalog: map<string, seq<string>>, log: seq<Statement>,
                    table: string, id: nat)
    requires Sound(entries, catalog, log) && TableAllowed(table)
    ensures Sound(After(entries, catalog, table), catalog,
      log + CatalogTraffic(entries, table) + [DeleteStatement(table, id)])
  {
    AllowedTableIsPlain(table);
    DeleteDirectives(table);
    SoundStep(entries, catalog, log, table, [DeleteStatement(table, id)]);
  }

  /** `GET /api/<table>`: one page of rows. */
  method List(cache: Cache, db: Database, table: string, arg: LimitArg)
    returns (resp: Response, ghost page: seq<seq<Value>>, ghost ids: seq<nat>)
    modifies cache, db`log
    ensures !TableAllowed(table) ==> resp == BadRequest("table not allowed")
    ensures TableAllowed(table) && (LimitValue(arg).None? || !db.reachable) ==> resp == ServerError
    ensures !TableAllowed(table) || LimitValue(arg).None? || !db.reachable ==>
      cache.entries == old(cache.entries) && db.log == old(db.log)
    ensures TableAllowed(table) && LimitValue(arg).Some? && db.reachable ==>
      var cols := ColumnsFor(old(cache.entries), db.catalog, table);
      var limit := LimitValue(arg).value;
      cache.entries == After(old(cache.entries), db.catalog, table) &&
      db.log == old(db.log) + CatalogTraffic(old(cache.entries), table) + [SelectPageStatement(table, cols, limit)] &&
      if !PageAccepted(db.catalog, table, cols, limit) then resp == ServerError
      else resp.Ok? && resp.body.RowList? && IsPageReply(resp.body.rows, page, ids, db.Rows(table), cols, limit)
    ensures Sound(old(cache.entries), db.catalog, old(db.log)) ==> Sound(cache.entries, db.catalog, db.log)
  {
    page, ids := [], [];
    if !TableAllowed(table) {
      return BadRequest("table not allowed"), page, ids;
    }
    if LimitValue(arg).None? {
      return ServerError, page, ids;
    }
    var limit := LimitValue(arg).value;
    if !db.reachable {
      return ServerError, page, ids;
    }
    ghost var entries0, log0 := cache.entries, db.log;
    var cols := cache.Columns(db, table);
    resp, page, ids := SelectPageReply(db, table, cols, limit);
    if Sound(entries0, db.catalog, log0) {
      ListSound(entries0, db.catalog, log0, table, limit);
    }
  }

  /** The page SELECT, its rows turned into JSON objects one by one. */
  method SelectPageReply(db: Database, table: string, cols: seq<string>, limit: int)
    returns (resp: Response, ghost page: seq<seq<Value>>, ghost ids: seq<nat>)
    requires db.reachable
    modifies db`log
    ensures db.log == old(db.log) + [SelectPageStatement(table, cols, limit)]
    ensures if !PageAccepted(db.catalog, table, cols, limit) then resp == ServerError
      else resp.Ok? && resp.body.RowList? && IsPageReply(resp.body.rows, page, ids, db.Rows(table), cols, limit)
  {
    var r;
    r, ids := db.SelectPage(table, cols, limit);
    if r.None? {
      return ServerError, [], ids;
    }
    page := r.value;
    var objs := ToJsonRows(cols, r.value);
    resp := Ok(RowList(objs));
  }

  /** What the routes can change: the cache, the log, the rows and the id sequence. */
  datatype Snapshot = Snapshot(entries: Entries, log: seq<Statement>, tables: map<string, map<nat, Row>>, serial: nat)

  ghost function Snap(cache: Cache, db: Database): Snapshot
    reads cache, db
  {
    Snapshot(cache.entries, db.log, db.tables, db.serial)
  }

  /**
   * The effect of a create once the guards have passed: the columns are
   * looked up; a truthy non-object body fails; a body without a writable
   * key is refused; an INSERT the database rejects fails; otherwise the
   * row is inserted under the next id and replied with as a read of that
   * id gives it: the row as stored, unless the SELECT is rejected.
   */
  ghost predicate CreateOutcome(s0: Snapshot, s1: Snapshot, catalog: map<string, seq<string>>,
                                table: string, body: JsonBody, resp: Response)
  {
    var cols := ColumnsFor(s0.entries, catalog, table);
    var traffic := s0.log + CatalogTraffic(s0.entries, table);
    s1.entries == After(s0.entries, catalog, table) &&
    match RequestData(body)
    case None =>
      resp == ServerError && s1.log == traffic && s1.tables == s0.tables && s1.serial == s0.serial
    case Some(p) =>
      var keys := AcceptedKeys(Keys(p), cols);
      if keys == [] then
        resp == BadRequest("no valid columns") && s1.log == traffic &&
        s1.tables == s0.tables && s1.serial == s0.serial
      else
        var vals := Values(p, keys);
        var insert := InsertStatement(table, keys, vals);
        if !Accepted(catalog, table, ["id"] + keys, insert) then
          resp == ServerError && s1.log == traffic + [insert] &&
          s1.tables == s0.tables && s1.serial == s0.serial
        else
          var id := s0.serial;
          var row := Assign(map[], keys, vals);
          id !in RowsOf(s0.tables, table) &&
          s1.serial == id + 1 &&
          s1.tables == s0.tables[table := RowsOf(s0.tables, table)[id := row]] &&
          s1.log == traffic + [insert, SelectByIdStatement(table, cols, id)] &&
          resp == ReadResponse(catalog, table, cols, RowsOf(s1.tables, table), id) &&
          (Accepted(catalog, table, ["id"] + cols, SelectByIdStatement(table, cols, id)) ==> resp == Ok(RowObject(JsonRowOf(cols, Project(id, row, cols)))))
  }

  /** `POST /api/<table>`: inserts a row from the JSON body and replies with it. */
  method Create(cache: Cache, db: Database, table: string, body: JsonBody) returns (resp: Response)
    requires db.Valid() && WellFormed(body)
    modifies cache, db`tables, db`serial, db`log
    ensures db.Valid()
    ensures !TableAllowed(table) ==> resp == BadRequest("table not allowed")
    ensures TableAllowed(table) && !db.reachable ==> resp == ServerError
    ensures !TableAllowed(table) || !db.reachable ==> Snap(cache, db) == old(Snap(cache, db))
    ensures TableAllowed(table) && db.reachable ==>
      CreateOutcome(old(Snap(cache, db)), Snap(cache, db), db.catalog, table, body, resp)
    ensures Sound(old(cache.entries), db.catalog, old(db.log)) ==> Sound(cache.entries, db.catalog, db.log)
  {
    if !TableAllowed(table) {
      return BadRequest("table not allowed");
    }
    if !db.reachable {
      return ServerError;
    }
    resp := CreateConnected(cache, db, table, body);
  }

  /** A create on an allowed table of a reachable database. */
  method CreateConnected(cache: Cache, db: Database, table: string, body: JsonBody) returns (resp: Response)
    requires TableAllowed(table) && db.reachable && db.Valid() && WellFormed(body)
    modifies cache, db`tables, db`serial, db`log
    ensures db.Valid()
    ensures CreateOutcome(old(Snap(cache, db)), Snap(cache, db), db.catalog, table, body, resp)
    ensures Sound(old(cache.entries), db.catalog, old(db.log)) ==> Sound(cache.entries, db.catalog, db.log)
  {
    ghost var entries0, log0 := cache.entries, db.log;
    ghost var sound := Sound(entries0, db.catalog, log0);
    var cols := cache.Columns(db, table);
    var data := RequestData(body);
    if data.None? {
      if sound {
        LookupOnlySound(entries0, db.catalog, log0, table);
      }
      return ServerError;
    }
    var p := data.value;
    var keys := AcceptedKeys(Keys(p), cols);
    if keys == [] {
      if sound {
        LookupOnlySound(entries0, db.catalog, log0, table);
      }
      return BadRequest("no valid columns");
    }
    var vals := Values(p, keys);
    assert keys[0] in keys;
    ghost var id := db.serial;
    resp := InsertAndReread(db, table, cols, keys, vals);
    if sound {
      CreateSound(entries0, db.catalog, log0, table, p, id);
    }
  }

  /**
   * The INSERT of a new row followed by the SELECT that reads it back; 500
   * when the database rejects either.
   */
  method InsertAndReread(db: Database, table: string, cols: seq<string>, keys: seq<string>, vals: seq<Json>)
    returns (resp: Response)
    requires db.reachable && db.Valid() && keys != [] && |keys| == |vals|
    modifies db`tables, db`serial, db`log
    ensures db.Valid()
    ensures var id := old(db.serial);
      var insert := InsertStatement(table, keys, vals);
      if !Accepted(db.catalog, table, ["id"] + keys, insert) then
        resp == ServerError && db.log == old(db.log) + [insert] &&
        db.tables == old(db.tables) && db.serial == id
      else
        db.serial == id + 1 && id !in old(db.Rows(table)) &&
        db.tables == old(db.tables)[table := old(db.Rows(table))[id := Assign(map[], keys, vals)]] &&
        db.log == old(db.log) + [insert, SelectByIdStatement(table, cols, id)] &&
        (Accepted(db.catalog, table, ["id"] + cols, SelectByIdStatement(table, cols, id)) ==>
          resp == Ok(RowObject(JsonRowOf(cols, Project(id, Assign(map[], keys, vals), cols))))) &&
        (cols != [] ==> resp == ReadResponse(db.catalog, table, cols, db.Rows(table), id))
  {
    var id := db.Insert(table, keys, vals);
    if id.None? {
      return ServerError;
    }
    var ok, row := db.SelectById(table, cols, id.value);
    if !ok {
      return ServerError;
    }
    var obj := ToJsonRow(cols, row.value);
    resp := Ok(RowObject(obj));
  }

  /** `GET /api/<table>/<id>`: one row. */
  method Read(cache: Cache, db: Database, table: string, id: nat) returns (resp: Response)
    modifies cache, db`log
    ensures !TableAllowed(table) ==> resp == BadRequest("table not allowed")
    ensures TableAllowed(table) && !db.reachable ==> resp == ServerError
    ensures !TableAllowed(table) || !db.reachable ==>
      cache.entries == old(cache.entries) && db.log == old(db.log)
    ensures TableAllowed(table) && db.reachable ==>
      var cols := ColumnsFor(old(cache.entries), db.catalog, table);
      cache.entries == After(old(cache.entries), db.catalog, table) &&
      db.log == old(db.log) + CatalogTraffic(old(cache.entries), table) + [SelectByIdStatement(table, cols, id)] &&
      resp == ReadResponse(db.catalog, table, cols, db.Rows(table), id)
    ensures Sound(old(cache.entries), db.catalog, old(db.log)) ==> Sound(cache.entries, db.catalog, db.log)
  {
    if !TableAllowed(table) {
      return BadRequest("table not allowed");
    }
    if !db.reachable {
      return ServerError;
    }
    ghost var entries0, log0 := cache.entries, db.log;
    var cols := cache.Columns(db, table);
    var ok, row := db.SelectById(table, cols, id);
    if Sound(entries0, db.catalog, log0) {
      ReadSound(entries0, db.catalog, log0, table, id);
    }
    resp := RowReply(cols, ok, row);
  }

  /** 500 for a rejected SELECT; `if not row: 404`; else the row as JSON. */
  method RowReply(cols: seq<string>, ok: bool, row: Option<seq<Value>>) returns (resp: Response)
    requires row.Some? ==> |row.value| == |cols|
    ensures resp == if !ok then ServerError
      else if row.None? || row.value == [] then NotFound("not found")
      else Ok(RowObject(JsonRowOf(cols, row.value)))
  {
    if !ok {
      return ServerError;
    }
    if row.None? || row.value == [] {
      return NotFound("not found");
    }
    var obj := ToJsonRow(cols, row.value);
    resp := Ok(RowObject(obj));
  }

  /**
   * The effect of an update once the guards have passed: as for a create,
   * except that the row assigned is the one with the given id, if any, and
   * the reply is the row as a read of that id would give it. An UPDATE the
   * database rejects changes nothing and fails.
   */
  ghost predicate UpdateOutcome(s0: Snapshot, s1: Snapshot, catalog: map<string, seq<string>>,
                                table: string, id: nat, body: JsonBody, resp: Response)
  {
    var cols := ColumnsFor(s0.entries, catalog, table);
    var traffic := s0.log + CatalogTraffic(s0.entries, table);
    s1.entries == After(s0.entries, catalog, table) && s1.serial == s0.serial &&
    match RequestData(body)
    case None =>
      resp == ServerError && s1.log == traffic && s1.tables == s0.tables
    case Some(p) =>
      var keys := AcceptedKeys(Keys(p), cols);
      if keys == [] then
        resp == BadRequest("no valid columns") && s1.log == traffic && s1.tables == s0.tables
      else
        var vals := Values(p, keys);
        var update := UpdateStatement(table, keys, vals, id);
        if !Accepted(catalog, table, ["id"] + keys, update) then
          resp == ServerError && s1.log == traffic + [update] && s1.tables == s0.tables
        else
          var rows := RowsOf(s0.tables, table);
          s1.tables == (if id in rows then s0.tables[table := rows[id := Assign(rows[id], keys, vals)]]
                        else s0.tables) &&
          s1.log == traffic + [update, SelectByIdStatement(table, cols, id)] &&
          resp == ReadResponse(catalog, table, cols, RowsOf(s1.tables, table), id)
  }

  /** `PUT` or `PATCH /api/<table>/<id>`: assigns columns from the JSON body, then replies with the row. */
  method Update(cache: Cache, db: Database, table: string, id: nat, body: JsonBody) returns (resp: Response)
    requires WellFormed(body)
    modifies cache, db`tables, db`log
    ensures old(db.Valid()) ==> db.Valid()
    ensures !TableAllowed(table) ==> resp == BadRequest("table not allowed")
    ensures TableAllowed(table) && !db.reachable ==> resp == ServerError
    ensures !TableAllowed(table) || !db.reachable ==> Snap(cache, db) == old(Snap(cache, db))
    ensures TableAllowed(table) && db.reachable ==>
      UpdateOutcome(old(Snap(cache, db)), Snap(cache, db), db.catalog, table, id, body, resp)
    ensures Sound(old(cache.entries), db.catalog, old(db.log)) ==> Sound(cache.entries, db.catalog, db.log)
  {
    if !TableAllowed(table) {
      return BadRequest("table not allowed");
    }
    if !db.reachable {
      return ServerError;
    }
    resp := UpdateConnected(cache, db, table, id, body);
  }

  /** An update on an allowed table of a reachable database. */
  method UpdateConnected(cache: Cache, db: Database, table: string, id: nat, body: JsonBody) returns (resp: Response)
    requires TableAllowed(table) && db.reachable && WellFormed(body)
    modifies cache, db`tables, db`log
    ensures old(db.Valid()) ==> db.Valid()
    ensures UpdateOutcome(old(Snap(cache, db)), Snap(cache, db), db.catalog, table, id, body, resp)
    ensures Sound(old(cache.entries), db.catalog, old(db.log)) ==> Sound(cache.entries, db.catalog, db.log)
  {
    ghost var entries0, log0 := cache.entries, db.log;
    ghost var sound := Sound(entries0, db.catalog, log0);
    var cols := cache.Columns(db, table);
    var data := RequestData(body);
    if data.None? {
      if sound {
        LookupOnlySound(entries0, db.catalog, log0, table);
      }
      return ServerError;
    }
    var p := data.value;
    var keys := AcceptedKeys(Keys(p), cols);
    if keys == [] {
      if sound {
        LookupOnlySound(entries0, db.catalog, log0, table);
      }
      return BadRequest("no valid columns");
    }
    var vals := Values(p, keys);
    resp := UpdateAndReread(db, table, cols, keys, vals, id);
    if sound {
      UpdateSound(entries0, db.catalog, log0, table, p, id);
    }
  }

  /**
   * The UPDATE of one row followed by the SELECT that reads it back; 500
   * when the database rejects the UPDATE, which then sends nothing more.
   */
  method UpdateAndReread(db: Database, table: string, cols: seq<string>, keys: seq<string>, vals: seq<Json>, id: nat)
    returns (resp: Response)
    requires db.reachable && keys != [] && |keys| == |vals|
    modifies db`tables, db`log
    ensures old(db.Valid()) ==> db.Valid()
    ensures var rows := old(db.Rows(table));
      var update := UpdateStatement(table, keys, vals, id);
      if !Accepted(db.catalog, table, ["id"] + keys, update) then
        resp == ServerError && db.log == old(db.log) + [update] && db.tables == old(db.tables)
      else
        db.tables == (if id in rows then old(db.tables)[table := rows[id := Assign(rows[id], keys, vals)]]
                      else old(db.tables)) &&
        db.log == old(db.log) + [update, SelectByIdStatement(table, cols, id)] &&
        resp == ReadResponse(db.catalog, table, cols, db.Rows(table), id)
  {
    var updated := db.Update(table, keys, vals, id);
    if !updated {
      return ServerError;
    }
    var ok, row := db.SelectById(table, cols, id);
    resp := RowReply(cols, ok, row);
  }

  /**
   * `DELETE /api/<table>/<id>`: removes the row, if any, and acknowledges;
   * 500 when the database rejects the DELETE.
   */
  method Delete(cache: Cache, db: Database, table: string, id: nat) returns (resp: Response)
    modifies cache, db`tables, db`log
    ensures old(db.Valid()) ==> db.Valid()
    ensures !TableAllowed(table) ==> resp == BadRequest("table not allowed")
    ensures TableAllowed(table) && !db.reachable ==> resp == ServerError
    ensures !TableAllowed(table) || !db.reachable ==>
      cache.entries == old(cache.entries) && db.log == old(db.log) && db.tables == old(db.tables)
    ensures TableAllowed(table) && db.reachable ==>
      cache.entries == After(old(cache.entries), db.catalog, table) &&
      db.log == old(db.log) + CatalogTraffic(old(cache.entries), table) + [DeleteStatement(table, id)] &&
      var accepted := Accepted(db.catalog, table, ["id"], DeleteStatement(table, id));
      db.tables == (if accepted && table in old(db.tables) then old(db.tables)[table := old(db.tables)[table] - {id}]
                    else old(db.tables)) &&
      (accepted ==> id !in db.Rows(table)) &&
      resp == (if accepted then Ok(Deleted(id)) else ServerError)
    ensures Sound(old(cache.entries), db.catalog, old(db.log)) ==> Sound(cache.entries, db.catalog, db.log)
  {
    if !TableAllowed(table) {
      return BadRequest("table not allowed");
    }
    if !db.reachable {
      return ServerError;
    }
    ghost var entries0, log0 := cache.entries, db.log;
    var cols := cache.Columns(db, table);
    var ok := db.Delete(table, id);
    if Sound(entries0, db.catalog, log0) {
      DeleteSound(entries0, db.catalog, log0, table, id);
    }
    if !ok {
      return ServerError;
    }
    resp := Ok(Deleted(id));
  }

  // What a client observes.

  /** Each column of a reply object holds the serialized value of that column of the row. */
  lemma ObjectColumn(cols: seq<string>, id: nat, row: Row, c: string)
    requires Distinct(cols) && c in cols
    ensures var obj := JsonRowOf(cols, Project(id, row, cols));
      obj.Keys == (set x | x in cols) && c in obj && obj[c] == Serialize(ColumnValue(id, row, c))
  {
    var t := Project(id, row, cols);
    var j :| 0 <= j < |cols| && cols[j] == c;
    JsonRowKeys(cols, t);
    JsonRowAt(cols, t, j);
  }

  /**
   * A found row is replied to as an object with exactly the table's
   * columns, `id` holding the id and every other column its stored value,
   * or null where the row has none.
   */
  lemma ReadReply(catalog: map<string, seq<string>>, table: string, cols: seq<string>, rows: map<nat, Row>, id: nat)
    requires Distinct(cols)
    ensures ReadResponse(catalog, table, cols, rows, id) == ServerError <==> !Accepted(catalog, table, ["id"] + cols, SelectByIdStatement(table, cols, id))
    ensures ReadResponse(catalog, table, cols, rows, id).Ok? <==>
Accepted(catalog, table, ["id"] + cols, SelectByIdStatement(table, cols, id)) && id in rows && cols != []
    ensures ReadResponse(catalog, table, cols, rows, id).Ok? ==>
      var obj := ReadResponse(catalog, table, cols, rows, id).body.row;
      obj.Keys == (set x | x in cols) &&
      ("id" in cols ==> obj["id"] == JNumber(id)) &&
      forall c :: c in cols && c != "id" ==>
        obj[c] == (if c in rows[id] then Serialize(rows[id][c]) else JNull)
  {
    if Accepted(catalog, table, ["id"] + cols, SelectByIdStatement(table, cols, id)) && id in rows && cols != [] {
      var obj := ReadResponse(catalog, table, cols, rows, id).body.row;
      JsonRowKeys(cols, Project(id, rows[id], cols));
      forall c | c in cols ensures c in obj && obj[c] == Serialize(ColumnValue(id, rows[id], c)) {
        ObjectColumn(cols, id, rows[id], c);
      }
      ObjectColumn(cols, id, rows[id], cols[0]);
    }
  }

  /**
   * Through a cache that agrees with a catalog whose column names hold no
   * `%`, a read of an allowed table is refused with 500 exactly when the
   * catalog lacks the table or the table lacks an `id` column.
   */
  lemma CoherentReadResponse(entries: Entries, catalog: map<string, seq<string>>, table: string,
                             rows: map<nat, Row>, id: nat)
    requires Coherent(entries, catalog) && PlainCatalog(catalog) && TableAllowed(table)
    ensures var cols := ColumnsFor(entries, catalog, table);
      ReadResponse(catalog, table, cols, rows, id) == ServerError <==>
        !(table in catalog && "id" in catalog[table])
  {
    CoherentLookup(entries, catalog, table);
    ResolvesOwnColumns(catalog, table);
    SoundColumns(entries, catalog, table);
    AllowedTableIsPlain(table);
    SelectByIdDirectives(table, ColumnsFor(entries, catalog, table));
  }

  /**
   * A column name holding `%` reads as a directive with no parameter, so
   * the driver refuses the SELECT and a read replies 500, whatever the
   * catalog and the rows.
   */
  lemma PercentColumnRejected(catalog: map<string, seq<string>>, table: string, cols: seq<string>,
                              rows: map<nat, Row>, id: nat, k: nat)
    requires '%' !in table && k < |cols| && '%' in cols[k]
    ensures !Aligned(SelectByIdStatement(table, cols, id))
    ensures ReadResponse(catalog, table, cols, rows, id) == ServerError
  {
    PercentColumnDirective(cols, k);
    PlaceholderDirective();
    NoDirectives(table);
    DirectivesOfAlternatingPieces6("SELECT ", ColumnList(cols), " FROM ", table, " WHERE id=", "%s");
  }

  /** After a delete the database accepted, the next read of that id finds nothing. */
  lemma DeletedRowNotFound(entries: Entries, catalog: map<string, seq<string>>, table: string,
                           rows: map<nat, Row>, id: nat)
    requires Coherent(entries, catalog) && PlainCatalog(catalog) && TableAllowed(table)
    requires Resolves(catalog, table, ["id"]) && id !in rows
    ensures ReadResponse(catalog, table, ColumnsFor(After(entries, catalog, table), catalog, table), rows, id)
      == NotFound("not found")
  {
    SecondLookupHits(entries, catalog, catalog, table);
    CoherentReadResponse(entries, catalog, table, rows, id);
  }

  /** In a list without repetitions, an element does not occur again after its position. */
  lemma NotLater(keys: seq<string>, m: int)
    requires Distinct(keys) && 0 <= m < |keys|
    ensures keys[m] !in keys[m + 1..]
  {
    var later := keys[m + 1..];
    forall n | 0 <= n < |later| ensures later[n] != keys[m] {
      assert later[n] == keys[m + 1 + n];
    }
  }

  /**
   * Writing a payload into a row and reading it back: every writable key
   * of the payload reads back as the value the client sent for it.
   */
  lemma WrittenValuesReadBack(p: Payload, cols: seq<string>, id: nat, row: Row)
    requires DistinctKeys(p) && Distinct(cols)
    ensures var keys := AcceptedKeys(Keys(p), cols);
      var obj := JsonRowOf(cols, Project(id, Assign(row, keys, Values(p, keys)), cols));
      obj.Keys == (set x | x in cols) &&
      forall i :: 0 <= i < |p| && Writable(cols, p[i].0) ==> obj[p[i].0] == p[i].1
  {
    var keys := AcceptedKeys(Keys(p), cols);
    var vals := Values(p, keys);
    var row' := Assign(row, keys, vals);
    var obj := JsonRowOf(cols, Project(id, row', cols));
    JsonRowKeys(cols, Project(id, row', cols));
    AcceptedKeysSpec(Keys(p), cols);
    AssignSpec(row, keys, vals);
    forall i | 0 <= i < |p| && Writable(cols, p[i].0) ensures obj[p[i].0] == p[i].1 {
      var k := p[i].0;
      assert Keys(p)[i] == k;
      ObjectColumn(cols, id, row', k);
      var m :| 0 <= m < |keys| && keys[m] == k;
      NotLater(keys, m);
      GetAt(p, i);
    }
  }

  /**
   * The columns a payload does not name keep what the row held; for a new
   * row (`row == map[]`) they read as null.
   */
  lemma UnwrittenColumnsKept(p: Payload, cols: seq<string>, id: nat, row: Row)
    requires Distinct(cols)
    ensures var keys := AcceptedKeys(Keys(p), cols);
      var obj := JsonRowOf(cols, Project(id, Assign(row, keys, Values(p, keys)), cols));
      obj.Keys == (set x | x in cols) &&
      forall c :: c in cols && c !in Keys(p) ==> obj[c] == Serialize(ColumnValue(id, row, c))
  {
    var keys := AcceptedKeys(Keys(p), cols);
    var row' := Assign(row, keys, Values(p, keys));
    JsonRowKeys(cols, Project(id, row', cols));
    AssignSpec(row, keys, Values(p, keys));
    forall c | c in cols && c !in Keys(p)
      ensures JsonRowOf(cols, Project(id, row', cols))[c] == Serialize(ColumnValue(id, row, c))
    {
      ObjectColumn(cols, id, row', c);
    }
  }

  /**
   * The INSERT a create sends names the accepted columns in payload order,
   * has a placeholder for each, and passes the client's value for each
   * column at the same position.
   */
  lemma InsertPairsColumnsWithValues(table: string, p: Payload, cols: seq<string>)
    requires TableAllowed(table) && NoPercent(cols) && DistinctKeys(p)
    requires AcceptedKeys(Keys(p), cols) != []
    ensures var keys := AcceptedKeys(Keys(p), cols);
      var s := InsertStatement(table, keys, Values(p, keys));
      Aligned(s) &&
      ParseQuotedList(ColumnList(keys), "") == Some(keys) &&
      |s.params| == |keys| &&
      forall i :: 0 <= i < |keys| ==> exists j :: 0 <= j < |p| && p[j].0 == keys[i] && p[j].1 == s.params[i]
  {
    var keys := AcceptedKeys(Keys(p), cols);
    AllowedTableIsPlain(table);
    AcceptedNoPercent(Keys(p), cols);
    InsertDirectives(table, keys);
    ColumnListReadsBack(keys);
    ValuesOfAcceptedKeys(p, cols);
  }

  /**
   * The UPDATE an update sends sets the accepted columns in payload order,
   * one placeholder each, passes the client's values at the same
   * positions and the id as the last parameter, for the `WHERE id=%s`.
   */
  lemma UpdatePairsColumnsWithValues(table: string, p: Payload, cols: seq<string>, id: nat)
    requires TableAllowed(table) && NoPercent(cols) && DistinctKeys(p)
    requires AcceptedKeys(Keys(p), cols) != []
    ensures var keys := AcceptedKeys(Keys(p), cols);
      var s := UpdateStatement(table, keys, Values(p, keys), id);
      Aligned(s) &&
      ParseQuotedList(SetList(keys), "=%s") == Some(keys) &&
      |s.params| == |keys| + 1 &&
      s.params[|keys|] == JNumber(id) &&
      forall i :: 0 <= i < |keys| ==> exists j :: 0 <= j < |p| && p[j].0 == keys[i] && p[j].1 == s.params[i]
  {
    var keys := AcceptedKeys(Keys(p), cols);
    AllowedTableIsPlain(table);
    AcceptedNoPercent(Keys(p), cols);
    UpdateDirectives(table, keys);
    SetListReadsBack(keys);
    UpdateParams(p, cols, id);
  }

  /** The first parameters of the UPDATE are the client's values, position by position. */
  lemma UpdateParams(p: Payload, cols: seq<string>, id: nat)
    requires DistinctKeys(p)
    ensures var keys := AcceptedKeys(Keys(p), cols);
      var params := Values(p, keys) + [JNumber(id)];
      forall i :: 0 <= i < |keys| ==> exists j :: 0 <= j < |p| && p[j].0 == keys[i] && p[j].1 == params[i]
  {
    var keys := AcceptedKeys(Keys(p), cols);
    var vals := Values(p, keys);
    ValuesOfAcceptedKeys(p, cols);
    forall i | 0 <= i < |keys| ensures (vals + [JNumber(id)])[i] == vals[i] {
    }
  }

  /** A created row, read back at once, is replied to exactly as the create was. */
  method CreateThenRead(cache: Cache, db: Database, table: string, body: JsonBody)
    returns (created: Response, read: Response)
    requires TableAllowed(table) && db.reachable && db.Valid() && WellFormed(body)
    modifies cache, db`tables, db`serial, db`log
    ensures created.Ok? ==> read == created
  {
    var id := db.serial;
    created := Create(cache, db, table, body);
    if created.Ok? {
      read := Read(cache, db, table, id);
    } else {
      read := created;
    }
  }

  /**
   * Deleting again replies as the first delete did. After an acknowledged
   * delete, a read of the same id through a cache that agrees with a
   * catalog whose column names hold no `%` finds nothing.
   */
  method DeleteThenRead(cache: Cache, db: Database, table: string, id: nat)
    returns (deleted: Response, read: Response, again: Response)
    requires TableAllowed(table) && db.reachable
    modifies cache, db`tables, db`log
    ensures deleted == (if Accepted(db.catalog, table, ["id"], DeleteStatement(table, id)) then Ok(Deleted(id)) else ServerError)
    ensures again == deleted
    ensures deleted.Ok? && Coherent(old(cache.entries), db.catalog) && PlainCatalog(db.catalog) ==>
      read == NotFound("not found")
  {
    ghost var entries0 := cache.entries;
    deleted := Delete(cache, db, table, id);
    read := Read(cache, db, table, id);
    if deleted.Ok? && Coherent(entries0, db.catalog) && PlainCatalog(db.catalog) {
      DeletedRowNotFound(entries0, db.catalog, table, db.Rows(table), id);
    }
    again := Delete(cache, db, table, id);
  }

  /** An update's reply is what a read of the same id replies right after. */
  method UpdateThenRead(cache: Cache, db: Database, table: string, id: nat, body: JsonBody)
    returns (updated: Response, read: Response)
    requires TableAllowed(table) && db.reachable && WellFormed(body)
    modifies cache, db`tables, db`log
    ensures updated.Ok? ==> read == updated
  {
    updated := Update(cache, db, table, id, body);
    read := Read(cache, db, table, id);
  }
}

# Generic table CRUD of the ERP sync dashboard

A Dafny model of the generic, allowlist-guarded CRUD layer of the ERP sync
dashboard's Flask application (`app.py`). The layer is made of:

- the table allowlist;
- the process-wide cache of column names per table, filled from the PostgreSQL catalog;
- identifier quoting and the filtering of request keys against the known columns;
- the SQL text and parameter lists of the statements the routes send;
- the serialisation of result rows to JSON objects;
- the five routes: list and create on `/api/<table>`, and read, update and delete on `/api/<table>/<id>`.

Modules follow the program's parts:

| module | file | what it holds |
|---|---|---|
| `Data` | `data.dfy` | `Option`; JSON scalars; database values (date/time, decimal, JSON scalar); character counting |
| `Allowlist` | `allowlist.dfy` | `table_allowed`; why a bare allowed table name is safe in SQL text |
| `Quoting` | `quoting.dfy` | PostgreSQL quoted identifiers (section 4.1.1 of the PostgreSQL manual, "Identifiers and Key Words"), with a lexer for them that states round trip and injection safety |
| `Payloads` | `payloads.dfy` | the request body, its keys in insertion order, and the writable-key filter |
| `SqlText` | `sql_text.dfy` | the statement texts; parsing generated column lists back; counting driver directives (`%`) |
| `Serializer` | `serializer.dfy` | `to_json_row` as a loop proved against a recursive specification |
| `Store` | `store.dfy` | the database: a `Database` class with its catalog, rows by id, id sequence and statement log |
| `ColumnCache` | `column_cache.dfy` | `_TABLE_COLUMNS` and `table_columns`, as a `Cache` class with a map field |
| `Crud` | `crud.dfy` | the routes as methods over a `Cache` and a `Database`; reply shapes; what a client observes across requests |

Points where the code's behaviour is worth spelling out:

- **Table name not quoted.** Column names are quoted; the table name is interpolated bare (`FROM {table}`, app.py:308, 325, 330, 346, 358, 366). `Allowlist.AllowedTableIsPlain` shows this is harmless: every allowed name is a lower-case word with no quote, `%` or space.
- **Parameter alignment.** psycopg2 reads every `%` of the statement text as a directive. Quoting doubles `"` but leaves `%` alone (`Quoting.QuoteKeepsOthers`). So the model proves the placeholder/parameter alignment under one condition: no column name holds a `%`. The predicate `Crud.Sound` carries that condition. Each route keeps `Sound`.
- **Error codes.** An unparsable `limit` fails with 500 before any database work, because `int()` runs outside the `try` (app.py:302). A create or update body that is truthy but is not an object fails with 500 at `.keys()`, after the column lookup.
- **Statements that are rejected.** A statement goes through when its directives match its parameters (psycopg2 refuses it otherwise) and when PostgreSQL finds the relation and every column it names; the page SELECT also needs a limit that fits a `bigint` (at most 2^63 − 1). The catalog says which relations exist and which columns they have. A rejected statement changes nothing and the route replies 500 (app.py:311-312, 333-334, 369-370). So a read, update or delete of a table that does not exist gives 500, as does any statement with `WHERE id=` or `RETURNING id` on a table without an `id` column, and any statement naming a column that holds `%` (`Crud.PercentColumnRejected`). `Crud.Sound` shows the driver never refuses a statement on a schema with no `%` in its column names.
- **Empty column list.** A list with no columns fails with 500 even when the table exists, because `ORDER BY 1` has no column 1. A read with no columns of an existing table returns `()`, which the route treats as not found. This happens only when the cached list is stale: the table was looked up before it had columns.
- **Commit before the re-read.** A create or update commits before its SELECT (app.py:327, 359). If that SELECT is rejected, the reply is 500 but the write stays.

## Model

| member | source | states |
|---|---|---|
| Allowlist.AllowedExactly | app.py:38-39 | a table is allowed if and only if it is exactly `inventory` or `sales` |
| Allowlist.AllowedTableIsPlain | app.py:308 | an allowed table name is a plain lower-case word with no `"`, `%` or space, so interpolating it bare cannot change the statement's structure |
| ColumnCache.Cache.Columns | app.py:41-57 | the result is the cached list if the table is cached, else the catalog's ordered list; the cache then holds the table and keeps every other entry; the catalog is queried exactly on a miss |
| ColumnCache.SecondLookupHits | app.py:42-43 | after one lookup, every later lookup of that table returns the same list, sends no query and leaves the cache unchanged, whatever the catalog says by then |
| ColumnCache.CoherentLookup | app.py:41-57 | a cache that agrees with the catalog answers as the catalog does and still agrees after the lookup |
| ColumnCache.EmptyAnswerSticks | app.py:55-56 | an empty answer for an unknown table is cached and keeps being returned after the catalog learns the table |
| Store.Database.QueryCatalog | app.py:45-55 | returns the catalog's columns of the table in ordinal order and sends the catalog statement with the table name as its only parameter |
| Quoting.Quote | app.py:306 | a quoted identifier starts and ends with a double quote |
| Quoting.EscapeDoublesQuotes | app.py:306 | inside the quotes, every double quote of the name appears doubled |
| Quoting.EscapeNoQuotes | app.py:306 | a name without double quotes is quoted by wrapping alone |
| Quoting.EscapeKeepsOthers | app.py:306 | escaping keeps the count of every character other than the double quote |
| Quoting.QuoteKeepsOthers | app.py:306 | quoting keeps the count of every character other than the double quote, `%` included |
| Quoting.ReadEscaped | app.py:306 | the lexer reads an escaped name and its closing quote back as the name and resumes at the following text |
| Quoting.ReadQuote | app.py:306 | a quoted name inside SQL text is read as exactly one identifier, the original name, and lexing resumes right after it |
| Quoting.QuoteRoundTrip | app.py:306 | un-doubling the interior of a quoted name recovers the name |
| Quoting.QuoteInjective | app.py:306 | distinct names give distinct quoted identifiers |
| SqlText.ParseLast | app.py:306 | one quoted name followed by its suffix reads back as that single name |
| SqlText.ParseNext | app.py:306 | a quoted name, its suffix and the `, ` separator read back as that name followed by the rest of the list |
| SqlText.ParseQuoteEach | app.py:306 | a `, `-joined list of quoted names, each followed by a suffix, reads back as exactly those names in order, whatever characters they contain |
| SqlText.ColumnListReadsBack | app.py:322 | the column list of a SELECT or INSERT reads back as the columns |
| SqlText.SetListReadsBack | app.py:355 | the SET clause reads back as the assigned keys, each followed by `=%s` |
| SqlText.CatalogDirectives | app.py:46-54 | the catalog query has exactly one directive, for its one parameter |
| SqlText.SelectPageDirectives | app.py:308 | the page SELECT has one directive, for the limit, when no column name holds `%` |
| SqlText.SelectByIdDirectives | app.py:346 | the SELECT by id has one directive, for the id, when no column name holds `%` |
| SqlText.InsertDirectives | app.py:321-325 | the INSERT has one directive per accepted key |
| SqlText.UpdateDirectives | app.py:355-358 | the UPDATE has one directive per assigned key plus one for the id |
| SqlText.DeleteDirectives | app.py:366 | the DELETE has one directive, for the id |
| SqlText.PlaceholdersDirectives | app.py:321 | `', '.join(['%s']*n)` holds exactly `n` directives |
| SqlText.SetListDirectives | app.py:355 | the SET clause holds one directive per key when no key holds `%` |
| SqlText.ColumnListDirectives | app.py:322 | a quoted column list holds no directive when no name holds `%` |
| Store.StatementsAligned | app.py:296-370 | every statement the routes build takes as many parameters as its text has directives, provided the table and the columns hold no `%` |
| Payloads.AcceptedKeys | app.py:318 | a key is accepted if and only if the payload has it and it is a known column other than `id` |
| Payloads.AcceptedKeysSpec | app.py:352 | the accepted keys keep payload order (a subsequence of the payload keys) and have no repetitions |
| Payloads.AcceptedKeysUnique | app.py:318 | the filter is the only order-keeping choice: any subsequence of the distinct payload keys holding exactly the writable keys is the filtered list |
| Payloads.GetAt | app.py:323 | with distinct keys, `data[k]` is the value paired with `k` in the payload |
| Payloads.ValuesOfAcceptedKeys | app.py:323 | the values passed for the accepted keys are, position by position, the payload's values for those keys |
| Serializer.ToJsonRow | app.py:59-75 | the loop builds exactly the object that assigns `cols[i]` the serialisation of `row[i]`, left to right |
| Serializer.ToJsonRows | app.py:309 | one object per fetched row, in order, each built from the same columns |
| Serializer.JsonRowKeys | app.py:59-75 | the object's keys are exactly the column names |
| Serializer.JsonRowAt | app.py:61-74 | a column holds the serialisation of the value at its last position: date/time as ISO text, decimals as their text, others unchanged |
| Serializer.JsonRowPrefix | app.py:61-62 | only the first `len(cols)` values of the row are read |
| Store.AssignSpec | app.py:358 | after assigning `vals` to `keys`, the row's columns are the old ones plus the keys, each key not assigned again later holds its value, and every other column is unchanged |
| Store.ResolvesOwnColumns | app.py:342-346 | the catalog's own column list of a table, with `id`, resolves exactly when the catalog lists the table and the table has an `id` column |
| Store.Database.SelectPage | app.py:308-309 | fails if and only if the limit is negative or above 2^63 − 1, the column list is empty, the statement's directives do not match its one parameter, or the relation or one of the columns is unknown; otherwise returns min(limit, row count) different stored rows, each projected on the columns |
| Store.Database.SelectById | app.py:346-347 | is rejected exactly when its directives do not match its one parameter, or the relation, a selected column or `id` is unknown; otherwise returns the row's projection if the id is stored, else nothing |
| Store.Database.Insert | app.py:325-327 | is rejected, changing nothing, exactly when its directives do not match its parameters, or the relation, a named column or `id` is unknown; otherwise stores the row under the id the sequence hands out, which no stored row has, and returns that id |
| Store.Database.Update | app.py:358-359 | is rejected, changing nothing, exactly when its directives do not match its parameters, or the relation, an assigned column or `id` is unknown; otherwise assigns the columns of the row with that id if there is one and changes nothing else |
| Store.Database.Delete | app.py:366-367 | is rejected, changing nothing, exactly when its directives do not match its one parameter, or the relation or its `id` column is unknown; otherwise removes the row with that id if there is one and changes nothing else |
| Crud.List | app.py:297-312 | a disallowed table gets 400 with no lookup and no query; an unparsable limit or an unreachable database gets 500; otherwise one lookup and one page SELECT, failing with 500 on a limit outside 0..2^63 − 1, no columns or a rejected statement, else a page of distinct rows as JSON, each the serialisation of a tuple of the page; the default limit is 50 |
| Crud.SelectPageReply | app.py:307-310 | the page SELECT's rows are replied to as JSON objects, or 500 when the statement is rejected: a limit outside 0..2^63 − 1, no columns, misaligned directives, an unknown relation or column |
| Crud.Create | app.py:313-334 | a disallowed table gets 400 and an unreachable database 500, with nothing changed; otherwise the outcome is `CreateOutcome` |
| Crud.CreateConnected | app.py:314-334 | after the lookup: 500 on a truthy non-object body; 400 "no valid columns" with no INSERT when no key is writable; 500 with nothing stored when the INSERT is rejected; otherwise the row goes in under a fresh id and the reply is what a read of that id gives: the row as stored, or 500 when the SELECT is rejected |
| Crud.InsertAndReread | app.py:324-332 | a rejected INSERT gives 500 and changes nothing; otherwise the INSERT stores the payload's columns under a fresh id, and the reply is that row as stored, or 500 when the SELECT is rejected; it equals what a read of the id gives |
| Crud.Read | app.py:336-349 | 400 or 500 at the guards, with nothing sent; otherwise one lookup and one SELECT by id, and the reply is 500 when the SELECT is rejected, else the row or 404 |
| Crud.RowReply | app.py:347-349 | a rejected SELECT gives 500; no row, or an empty tuple, gives 404 "not found"; any other row is replied to as its JSON object |
| Crud.Update | app.py:350-363 | guards as for a read; otherwise the outcome is `UpdateOutcome` |
| Crud.UpdateConnected | app.py:351-363 | after the lookup: 500 on a truthy non-object body; 400 "no valid columns" with no UPDATE when no key is writable; 500 with nothing changed when the UPDATE is rejected; otherwise the row with that id, if any, is assigned and the reply is what a read of the id gives: 404 when there is no such row |
| Crud.UpdateAndReread | app.py:357-363 | a rejected UPDATE gives 500, changes nothing and sends no SELECT; otherwise the UPDATE changes only the row with that id, and the reply re-reads it |
| Crud.Delete | app.py:364-370 | guards as for a read; otherwise one lookup and the DELETE: 500 with nothing changed when it is rejected, else the row is removed if present, the id is then absent, and the reply is `{deleted: true, id}` whether or not the row existed |
| Crud.AcceptedNoPercent | app.py:318 | keys filtered against columns without `%` hold no `%` |
| Crud.SoundStep | app.py:341-342 | a request on an allowed table that does its lookup and then sends aligned statements keeps the cache coherent and every statement aligned |
| Crud.SoundColumns | app.py:41-57 | a coherent cache over a catalog without `%` gives columns without `%` |
| Crud.ListSound | app.py:305-308 | the list route keeps every statement sent aligned |
| Crud.LookupOnlySound | app.py:317-320 | a write refused after the lookup keeps every statement sent aligned |
| Crud.ReadSound | app.py:342-346 | the read route keeps every statement sent aligned |
| Crud.CreateSound | app.py:317-330 | the create route keeps every statement sent aligned |
| Crud.UpdateSound | app.py:342-360 | the update route keeps every statement sent aligned |
| Crud.DeleteSound | app.py:342-366 | the delete route keeps every statement sent aligned |
| Crud.ObjectColumn | app.py:59-75 | with distinct columns, each column of a reply object holds the serialisation of that column of the stored row |
| Crud.ReadReply | app.py:346-349 | a read gives 500 exactly when the SELECT is rejected, and succeeds if and only if it is accepted, the id is stored and there are columns; then the reply has exactly the table's columns, `id` holding the id and every other column its stored value or null |
| Crud.CoherentReadResponse | app.py:342-348 | through a cache that agrees with a catalog whose column names hold no `%`, a read of an allowed table gives 500 exactly when the catalog lacks the table or the table lacks an `id` column |
| Crud.PercentColumnRejected | app.py:346-347 | a SELECT by id naming a column that holds `%` has more directives than parameters, so a read gives 500 whatever the rows |
| Crud.DeletedRowNotFound | app.py:344-348 | through a coherent cache over a `%`-free catalog, a read of an id absent from a table with an `id` column gives 404 "not found" |
| SqlText.PercentColumnDirective | app.py:306 | a column list naming a column that holds `%` holds at least one directive |
| Crud.WrittenValuesReadBack | app.py:318-332 | every writable key of the payload reads back with the value the client sent |
| Crud.UnwrittenColumnsKept | app.py:352-363 | columns the payload does not name keep what the row held, and read as null in a new row |
| Crud.InsertPairsColumnsWithValues | app.py:318-325 | the INSERT is aligned, names the accepted columns in payload order, and passes the client's value for each column at the same position |
| Crud.UpdatePairsColumnsWithValues | app.py:352-358 | the UPDATE is aligned, sets the accepted columns in payload order, passes the client's values at the same positions and the id last |
| Crud.UpdateParams | app.py:356 | the first parameters of the UPDATE are the client's values for the assigned keys, position by position |
| Crud.CreateThenRead | app.py:328-349 | a created row, read back by its id straight away, gets the same reply as the create |
| Crud.DeleteThenRead | app.py:344-368 | a delete is acknowledged exactly when the DELETE is accepted (for an allowed table: when it has an `id` column), deleting again replies the same, and after an acknowledged delete a read through a cache that agrees with a catalog whose column names hold no `%` finds nothing |
| Crud.UpdateThenRead | app.py:344-363 | an update's reply is what a read of the same id replies straight after |

## Left out

- The dashboard page, the status, counts, logs, inventory and health endpoints, and process startup (app.py:77-294, 372) are display and I/O glue, not part of the generic layer.
- Connections and environment variables (`db`, `env`, `hosts`, `one`, `all_`, app.py:9-33) are left out. A database is reachable or not, a constant of the `Database`. Statements naming an unknown relation or column are rejected, with reply 500. Other database failures are not modelled: type mismatches, constraint violations and connections lost partway through a request, which the program also answers with 500.
- Commit and rollback are left out. Each statement takes effect when it is sent.
- Flask request parsing is reduced to two datatypes. `LimitArg` stands for the `limit` argument: absent, an integer, or text `int()` refuses. `JsonBody` stands for the body: none or unparsable, an object, or another JSON value, falsy or truthy. HTTP codes are the `Response` variants.
- The error text of a 500 (`str(e)`) is left out: `ServerError` carries no message.
- Store.Database.SelectPage: the `ORDER BY 1 DESC` order is not modelled. The page holds the right number of different stored rows, in no particular order.
- Store.Database.Insert: ids come from one sequence shared by all tables, not one per table. Column defaults other than NULL and type coercion by the database are not modelled. A column the INSERT does not name reads back as NULL.
- The formatting done by `isoformat()` and `str(Decimal)` is left out. A date/time or decimal value carries its text already.
- Payload and column values are limited to null, booleans, integers and strings. Floats, arrays and objects are not modelled.
- Crud.Sound: parameter alignment is proved only for column names without `%`. A column name holding `%` is read by the driver as a directive; the model then rejects the statement with 500 (`Crud.PercentColumnRejected`), as psycopg2 does.
- The driver's `%%` escape is left out: the model counts it as two directives, while psycopg2 turns it into one literal `%`. A statement naming a column `a%%b` is rejected in the model; in the program PostgreSQL is then asked for the column `a%b`, which also fails with 500 unless the relation has a column of that name too.
- The race between concurrent first lookups of the same table is left out: the cache is modelled single-threaded. Staleness of the cache is stated (`ColumnCache.EmptyAnswerSticks`), but a catalog that changes during the process's life is not modelled.

/**
 * The process-wide cache of column names per table. The first lookup of
 * a table asks the catalog and remembers the answer, an empty one
 * included; every later lookup of that table answers from memory without
 * a query, for as long as the process lives.
 */
module ColumnCache {
  import opened Data
  import opened Store

  type Entries = map<string, seq<string>>

  /** What a lookup of `table` answers, given the cache before it and the catalog. */
  function ColumnsFor(entries: Entries, catalog: map<string, seq<string>>, table: string): seq<string>
  {
    if table in entries then entries[table] else Lookup(catalog, table)
  }

  /** What a lookup of `table` sends to the database: the catalog query on a miss only. */
  function CatalogTraffic(entries: Entries, table: string): seq<Statement>
  {
    if table in entries then [] else [CatalogStatement(table)]
  }

  /** The cache after a lookup of `table`. */
  function After(entries: Entries, catalog: map<string, seq<string>>, table: string): (e: Entries)
    ensures e.Keys == entries.Keys + {table}
    ensures forall t :: t in entries ==> e[t] == entries[t]
  {
    entries[table := ColumnsFor(entries, catalog, table)]
  }

  /** Every remembered answer is what the catalog says now. */
  predicate Coherent(entries: Entries, catalog: map<string, seq<string>>)
  {
    forall t :: t in entries ==> entries[t] == Lookup(catalog, t)
  }

  class Cache {
    var entries: Entries

    constructor ()
      ensures entries == map[]
    {
      entries := map[];
    }

    /** `table_columns`: the column names of `table`, from memory or from the catalog. */
    method Columns(db: Database, table: string) returns (cols: seq<string>)
      requires db.reachable
      modifies this, db`log
      ensures cols == ColumnsFor(old(entries), db.catalog, table)
      ensures entries == After(old(entries), db.catalog, table)
      ensures db.log == old(db.log) + CatalogTraffic(old(entries), table)
    {
      if table in entries {
        cols := entries[table];
        return;
      }
      cols := db.QueryCatalog(table);
      entries := entries[table := cols];
    }
  }

  /**
   * Once a table has been looked up, every later lookup gives the same
   * answer and sends nothing, whatever the catalog says by then.
   */
  lemma SecondLookupHits(entries: Entries, catalog: map<string, seq<string>>,
                         later: map<string, seq<string>>, table: string)
    ensures var e := After(entries, catalog, table);
      ColumnsFor(e, later, table) == ColumnsFor(entries, catalog, table) &&
      CatalogTraffic(e, table) == [] &&
      After(e, later, table) == e
  {
  }

  /** A cache filled from the catalog answers as the catalog does. */
  lemma CoherentLookup(entries: Entries, catalog: map<string, seq<string>>, table: string)
    requires Coherent(entries, catalog)
    ensures ColumnsFor(entries, catalog, table) == Lookup(catalog, table)
    ensures Coherent(After(entries, catalog, table), catalog)
  {
  }

  /**
   * The cache never forgets: a table the catalog did not know is
   * remembered as having no columns, even after the catalog learns them.
   */
  lemma EmptyAnswerSticks(entries: Entries, catalog: map<string, seq<string>>,
                          later: map<string, seq<string>>, table: string)
    requires table !in entries && table !in catalog
    ensures ColumnsFor(After(entries, catalog, table), later, table) == []
  {
  }
}

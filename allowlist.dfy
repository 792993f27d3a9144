/**
 * The allowlist that guards the generic table routes: only these tables
 * can be listed, created in, read, updated or deleted from.
 */
module Allowlist {

  const AllowedTables: seq<string> := ["inventory", "sales"]

  /** Exact, case-sensitive membership in the allowlist. */
  predicate TableAllowed(table: string)
  {
    table in AllowedTables
  }

  /** The allowlist admits exactly the two literal names and nothing else. */
  lemma AllowedExactly(table: string)
    ensures TableAllowed(table) <==> table == "inventory" || table == "sales"
  {
  }

  /** Plain SQL word: lower-case ASCII letters and underscores only. */
  predicate PlainWord(s: string)
  {
    |s| > 0 && forall i :: 0 <= i < |s| ==> ('a' <= s[i] <= 'z' || s[i] == '_')
  }

  /**
   * An allowed table is interpolated into SQL text without quoting; this is
   * safe because every allowed name is a plain word, so it contains no
   * quote, no `%` and no white space.
   */
  lemma AllowedTableIsPlain(table: string)
    requires TableAllowed(table)
    ensures PlainWord(table)
    ensures '"' !in table && '%' !in table && ' ' !in table
  {
    assert table == "inventory" || table == "sales";
  }
}

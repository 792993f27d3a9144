/**
 * The SQL text the generic routes send. Identifiers reach the text only
 * as an allowlisted table name or as quoted column names; every value is a
 * `%s` placeholder filled in by the driver from the parameter list.
 */
module SqlText {
  import opened Data
  import opened Quoting

  /** `sep.join(parts)`. */
  function Join(parts: seq<string>, sep: string): string
  {
    if parts == [] then ""
    else if |parts| == 1 then parts[0]
    else parts[0] + sep + Join(parts[1..], sep)
  }

  /** Every name quoted and followed by `suffix`. */
  function QuoteEach(names: seq<string>, suffix: string): seq<string>
  {
    seq(|names|, i requires 0 <= i < |names| => Quote(names[i]) + suffix)
  }

  /** `", ".join('"' + x.replace('"', '""') + '"' for x in cols)`. */
  function ColumnList(cols: seq<string>): string
  {
    Join(QuoteEach(cols, ""), ", ")
  }

  /** The SET clause of an UPDATE: `"k"=%s` for each key. */
  function SetList(keys: seq<string>): string
  {
    Join(QuoteEach(keys, "=%s"), ", ")
  }

  /** `', '.join(['%s'] * n)`. */
  function Placeholders(n: nat): string
  {
    Join(seq(n, _ => "%s"), ", ")
  }

  /**
   * The catalog query behind the column cache; its one parameter is the
   * table name. The program sends the same words laid out over several
   * indented lines; only the white space differs, which neither the
   * database nor the count of directives depends on.
   */
  function CatalogSql(): string
  {
    "SELECT column_name" + " FROM information_schema.columns" + " WHERE table_schema='public'" +
    " AND table_name=" + "%s" + " ORDER BY ordinal_position"
  }

  function SelectPageSql(table: string, cols: seq<string>): string
  {
    "SELECT " + ColumnList(cols) + " FROM " + table + " ORDER BY 1 DESC LIMIT " + "%s"
  }

  function SelectByIdSql(table: string, cols: seq<string>): string
  {
    "SELECT " + ColumnList(cols) + " FROM " + table + " WHERE id=" + "%s"
  }

  function InsertSql(table: string, keys: seq<string>): string
  {
    "INSERT INTO " + table + " (" + ColumnList(keys) + ") VALUES (" + Placeholders(|keys|) + ") RETURNING id"
  }

  function UpdateSql(table: string, keys: seq<string>): string
  {
    "UPDATE " + table + " SET " + SetList(keys) + " WHERE id=" + "%s"
  }

  function DeleteSql(table: string): string
  {
    "DELETE FROM " + table + " WHERE id=" + "%s"
  }

  /**
   * Reads a `, `-separated list of quoted identifiers, each followed by
   * `suffix`, that makes up all of `s`.
   */
  function ParseQuotedList(s: string, suffix: string): Option<seq<string>>
    decreases |s|
  {
    match ReadQuoted(s)
    case None => None
    case Some(p) =>
      var rest := p.1;
      if |rest| < |suffix| || rest[..|suffix|] != suffix then None
      else
        var after := rest[|suffix|..];
        if after == [] then Some([p.0])
        else if |after| >= 2 && after[..2] == ", " then
          match ParseQuotedList(after[2..], suffix)
          case None => None
          case Some(ns) => Some([p.0] + ns)
        else None
  }

  /** The last quoted name of a list. */
  lemma ParseLast(n: string, suffix: string)
    requires suffix == [] || suffix[0] != '"'
    ensures ParseQuotedList(Quote(n) + suffix, suffix) == Some([n])
  {
    ReadQuote(n, suffix);
    assert suffix[..|suffix|] == suffix && suffix[|suffix|..] == [];
  }

  /** A quoted name followed by the separator and more of the list. */
  lemma ParseNext(n: string, suffix: string, tail: string)
    requires suffix == [] || suffix[0] != '"'
    ensures ParseQuotedList(Quote(n) + (suffix + (", " + tail)), suffix) ==
      match ParseQuotedList(tail, suffix)
      case None => None
      case Some(ns) => Some([n] + ns)
  {
    var rest := suffix + (", " + tail);
    ReadQuote(n, rest);
    assert rest[..|suffix|] == suffix;
    var after := rest[|suffix|..];
    assert after == ", " + tail;
    assert after[..2] == ", " && after[2..] == tail;
  }

  /**
   * A generated list of quoted names reads back as exactly those names, in
   * order, whatever characters the names contain: no name can end its own
   * identifier early or smuggle in a separator.
   */
  lemma {:induction false} ParseQuoteEach(names: seq<string>, suffix: string)
    requires names != []
    requires suffix == [] || suffix[0] != '"'
    ensures ParseQuotedList(Join(QuoteEach(names, suffix), ", "), suffix) == Some(names)
    decreases |names|
  {
    var n := names[0];
    var qs := QuoteEach(names, suffix);
    if |names| == 1 {
      assert Join(qs, ", ") == Quote(n) + suffix;
      ParseLast(n, suffix);
      assert names == [n];
    } else {
      var tail := Join(QuoteEach(names[1..], suffix), ", ");
      assert qs[1..] == QuoteEach(names[1..], suffix);
      var head := qs[0];
      assert head == Quote(n) + suffix;
      assert Join(qs, ", ") == head + ", " + tail;
      assert head + ", " + tail == Quote(n) + (suffix + (", " + tail));
      ParseNext(n, suffix, tail);
      ParseQuoteEach(names[1..], suffix);
      assert [n] + names[1..] == names;
    }
  }

  /** The column list of a SELECT or INSERT reads back as the columns. */
  lemma ColumnListReadsBack(cols: seq<string>)
    requires cols != []
    ensures ParseQuotedList(ColumnList(cols), "") == Some(cols)
  {
    ParseQuoteEach(cols, "");
  }

  /** The SET clause of an UPDATE reads back as the keys it assigns. */
  lemma SetListReadsBack(keys: seq<string>)
    requires keys != []
    ensures ParseQuotedList(SetList(keys), "=%s") == Some(keys)
  {
    ParseQuoteEach(keys, "=%s");
  }

  /**
   * The driver reads every `%` of the text as a directive; `%s` consumes
   * one parameter. The count of directives is the count of `%`.
   */
  function Directives(sql: string): nat
  {
    Occurrences(sql, '%')
  }

  /** None of the names contains `%`. */
  predicate NoPercent(names: seq<string>)
  {
    forall i :: 0 <= i < |names| ==> '%' !in names[i]
  }

  lemma NoDirectives(s: string)
    requires '%' !in s
    ensures Directives(s) == 0
  {
    NoOccurrences(s, '%');
  }

  lemma DirectivesAppend(a: string, b: string)
    ensures Directives(a + b) == Directives(a) + Directives(b)
  {
    OccurrencesAppend(a, b, '%');
  }

  /** One placeholder is one directive. */
  lemma PlaceholderDirective()
    ensures Directives("%s") == 1
  {
    assert "%s"[1..] == "s";
    assert "s"[1..] == [];
  }

  // The lemmas below split a statement into its fixed, `%`-free pieces and
  // the pieces that vary; only the latter contribute directives. The
  // alternating ones take fixed pieces at odd positions (a, c, e, g), the
  // last one has every piece fixed but the fifth.

  lemma DirectivesOfAlternatingPieces4(a: string, b: string, c: string, d: string)
    requires '%' !in a && '%' !in c
    ensures Directives(a + b + c + d) == Directives(b) + Directives(d)
  {
    NoDirectives(a);
    NoDirectives(c);
    DirectivesAppend(a, b);
    DirectivesAppend(a + b, c);
    DirectivesAppend(a + b + c, d);
  }

  lemma DirectivesOfAlternatingPieces6(a: string, b: string, c: string, d: string, e: string, f: string)
    requires '%' !in a && '%' !in c && '%' !in e
    ensures Directives(a + b + c + d + e + f) == Directives(b) + Directives(d) + Directives(f)
  {
    DirectivesOfAlternatingPieces4(a, b, c, d);
    NoDirectives(e);
    DirectivesAppend(a + b + c + d, e);
    DirectivesAppend(a + b + c + d + e, f);
  }

  lemma DirectivesOfAlternatingPieces7(a: string, b: string, c: string, d: string, e: string, f: string, g: string)
    requires '%' !in a && '%' !in c && '%' !in e && '%' !in g
    ensures Directives(a + b + c + d + e + f + g) == Directives(b) + Directives(d) + Directives(f)
  {
    DirectivesOfAlternatingPieces6(a, b, c, d, e, f);
    NoDirectives(g);
    DirectivesAppend(a + b + c + d + e + f, g);
  }

  lemma DirectivesOfFifthPiece(a: string, b: string, c: string, d: string, e: string, f: string)
    requires '%' !in a && '%' !in b && '%' !in c && '%' !in d && '%' !in f
    ensures Directives(a + b + c + d + e + f) == Directives(e)
  {
    DirectivesOfAlternatingPieces4(a, b, c, d);
    NoDirectives(b);
    NoDirectives(d);
    NoDirectives(f);
    DirectivesAppend(a + b + c + d, e);
    DirectivesAppend(a + b + c + d + e, f);
  }

  /** Joining with a `%`-free separator adds up parts of `k` directives each. */
  lemma {:induction false} JoinDirectives(parts: seq<string>, sep: string, k: nat)
    requires '%' !in sep
    requires forall i :: 0 <= i < |parts| ==> Directives(parts[i]) == k
    ensures Directives(Join(parts, sep)) == k * |parts|
  {
    if |parts| > 1 {
      var rest := Join(parts[1..], sep);
      JoinDirectives(parts[1..], sep, k);
      NoDirectives(sep);
      DirectivesAppend(parts[0], sep);
      DirectivesAppend(parts[0] + sep, rest);
      assert k * |parts| == k + k * |parts[1..]|;
    }
  }

  /** A joined list reads at least the directives of each of its parts. */
  lemma {:induction false} JoinKeepsDirectives(parts: seq<string>, sep: string, k: nat)
    requires k < |parts|
    ensures Directives(Join(parts, sep)) >= Directives(parts[k])
  {
    if |parts| > 1 {
      DirectivesAppend(parts[0], sep);
      DirectivesAppend(parts[0] + sep, Join(parts[1..], sep));
      if k > 0 {
        JoinKeepsDirectives(parts[1..], sep, k - 1);
      }
    }
  }

  /** A column name holding `%` leaves a directive in the column list. */
  lemma PercentColumnDirective(cols: seq<string>, k: nat)
    requires k < |cols| && '%' in cols[k]
    ensures Directives(ColumnList(cols)) >= 1
  {
    var qs := QuoteEach(cols, "");
    JoinKeepsDirectives(qs, ", ", k);
    assert qs[k] == Quote(cols[k]);
    QuoteKeepsOthers(cols[k], '%');
    SomeOccurrence(cols[k], '%');
  }

  /** Each quoted name contributes as many directives as its suffix. */
  lemma QuoteEachDirectives(names: seq<string>, suffix: string)
    requires NoPercent(names)
    ensures Directives(Join(QuoteEach(names, suffix), ", ")) == Directives(suffix) * |names|
  {
    var qs := QuoteEach(names, suffix);
    forall i | 0 <= i < |qs| ensures Directives(qs[i]) == Directives(suffix) {
      QuoteKeepsOthers(names[i], '%');
      NoOccurrences(names[i], '%');
      DirectivesAppend(Quote(names[i]), suffix);
    }
    JoinDirectives(qs, ", ", Directives(suffix));
  }

  /** A quoted column list has no directive. */
  lemma ColumnListDirectives(cols: seq<string>)
    requires NoPercent(cols)
    ensures Directives(ColumnList(cols)) == 0
  {
    NoDirectives("");
    QuoteEachDirectives(cols, "");
  }

  /** A SET clause has one directive per assigned column. */
  lemma SetListDirectives(keys: seq<string>)
    requires NoPercent(keys)
    ensures Directives(SetList(keys)) == |keys|
  {
    PlaceholderDirective();
    NoDirectives("=");
    DirectivesAppend("=", "%s");
    assert "=" + "%s" == "=%s";
    QuoteEachDirectives(keys, "=%s");
  }

  lemma PlaceholdersDirectives(n: nat)
    ensures Directives(Placeholders(n)) == n
  {
    var ps := seq(n, _ => "%s");
    PlaceholderDirective();
    JoinDirectives(ps, ", ", 1);
  }

  /** An INSERT has one directive per column it names. */
  lemma InsertDirectives(table: string, keys: seq<string>)
    requires '%' !in table && NoPercent(keys)
    ensures Directives(InsertSql(table, keys)) == |keys|
  {
    ColumnListDirectives(keys);
    PlaceholdersDirectives(|keys|);
    NoDirectives(table);
    DirectivesOfAlternatingPieces7("INSERT INTO ", table, " (", ColumnList(keys), ") VALUES (", Placeholders(|keys|), ") RETURNING id");
  }

  /** An UPDATE has one directive per assigned column plus one for the id. */
  lemma UpdateDirectives(table: string, keys: seq<string>)
    requires '%' !in table && NoPercent(keys)
    ensures Directives(UpdateSql(table, keys)) == |keys| + 1
  {
    SetListDirectives(keys);
    PlaceholderDirective();
    NoDirectives(table);
    DirectivesOfAlternatingPieces6("UPDATE ", table, " SET ", SetList(keys), " WHERE id=", "%s");
  }

  /** A page SELECT has one directive, for the limit. */
  lemma SelectPageDirectives(table: string, cols: seq<string>)
    requires '%' !in table && NoPercent(cols)
    ensures Directives(SelectPageSql(table, cols)) == 1
  {
    ColumnListDirectives(cols);
    PlaceholderDirective();
    NoDirectives(table);
    DirectivesOfAlternatingPieces6("SELECT ", ColumnList(cols), " FROM ", table, " ORDER BY 1 DESC LIMIT ", "%s");
  }

  /** A SELECT by id has one directive, for the id. */
  lemma SelectByIdDirectives(table: string, cols: seq<string>)
    requires '%' !in table && NoPercent(cols)
    ensures Directives(SelectByIdSql(table, cols)) == 1
  {
    ColumnListDirectives(cols);
    PlaceholderDirective();
    NoDirectives(table);
    DirectivesOfAlternatingPieces6("SELECT ", ColumnList(cols), " FROM ", table, " WHERE id=", "%s");
  }

  /** A DELETE has one directive, for the id. */
  lemma DeleteDirectives(table: string)
    requires '%' !in table
    ensures Directives(DeleteSql(table)) == 1
  {
    PlaceholderDirective();
    NoDirectives(table);
    DirectivesOfAlternatingPieces4("DELETE FROM ", table, " WHERE id=", "%s");
  }

  /** The catalog query has one directive, for the table name. */
  lemma CatalogDirectives()
    ensures Directives(CatalogSql()) == 1
  {
    SelectColumnNamePlain();
    FromCatalogPlain();
    WhereSchemaPlain();
    AndTableNamePlain();
    OrderByPositionPlain();
    PlaceholderDirective();
    DirectivesOfFifthPiece("SELECT column_name", " FROM information_schema.columns", " WHERE table_schema='public'",
      " AND table_name=", "%s", " ORDER BY ordinal_position");
  }

  // The fixed pieces of the catalog query hold no `%`, one piece at a time.
  lemma SelectColumnNamePlain() ensures '%' !in "SELECT column_name" {}
  lemma FromCatalogPlain() ensures '%' !in " FROM information_schema.columns" {}
  lemma WhereSchemaPlain() ensures '%' !in " WHERE table_schema='public'" {}
  lemma AndTableNamePlain() ensures '%' !in " AND table_name=" {}
  lemma OrderByPositionPlain() ensures '%' !in " ORDER BY ordinal_position" {}
}

/**
 * Quoted identifiers in the style of PostgreSQL (section 4.1.1 of the
 * PostgreSQL manual, "Identifiers and Key Words"): a name is wrapped in
 * double quotes and every embedded double quote is doubled. A lexer for
 * quoted identifiers is given alongside, so that safety can be stated as
 * "the lexer reads back exactly the name, and stops exactly where the
 * quoted identifier ends".
 */
module Quoting {
  import opened Data

  /** Doubles every double quote of `name`. */
  function Escape(name: string): string
  {
    if name == [] then []
    else (if name[0] == '"' then "\"\"" else [name[0]]) + Escape(name[1..])
  }

  /** The quoted identifier for `name`: `"` + escaped name + `"`. */
  function Quote(name: string): (q: string)
    ensures |q| >= 2 && q[0] == '"' && q[|q| - 1] == '"'
  {
    "\"" + Escape(name) + "\""
  }

  /**
   * Every double quote in `s` is one half of an adjacent pair, reading
   * from the left.
   */
  predicate QuotesDoubled(s: string)
    decreases |s|
  {
    if s == [] then true
    else if s[0] != '"' then QuotesDoubled(s[1..])
    else |s| >= 2 && s[1] == '"' && QuotesDoubled(s[2..])
  }

  /**
   * Reads the body of a quoted identifier, the opening quote already
   * consumed: `""` stands for one quote, a lone `"` ends the identifier.
   * Gives the name and the text after the closing quote, or None when the
   * text ends before a closing quote.
   */
  function ReadQuotedBody(s: string): (r: Option<(string, string)>)
    ensures r.Some? ==> |r.value.1| < |s|
    decreases |s|
  {
    if s == [] then None
    else if s[0] == '"' then
      if |s| >= 2 && s[1] == '"' then
        match ReadQuotedBody(s[2..])
        case None => None
        case Some(p) => Some(("\"" + p.0, p.1))
      else Some(([], s[1..]))
    else
      match ReadQuotedBody(s[1..])
      case None => None
      case Some(p) => Some(([s[0]] + p.0, p.1))
  }

  /** Reads one quoted identifier at the start of `s`. */
  function ReadQuoted(s: string): (r: Option<(string, string)>)
    ensures r.Some? ==> |r.value.1| < |s|
  {
    if |s| > 0 && s[0] == '"' then ReadQuotedBody(s[1..]) else None
  }

  /** The name a complete quoted identifier denotes, if `q` is one. */
  function Unquote(q: string): Option<string>
  {
    match ReadQuoted(q)
    case Some(p) => if p.1 == [] then Some(p.0) else None
    case None => None
  }

  /** The escaped interior has every quote doubled. */
  lemma {:induction false} EscapeDoublesQuotes(name: string)
    ensures QuotesDoubled(Escape(name))
  {
    if name != [] {
      var e := Escape(name);
      EscapeDoublesQuotes(name[1..]);
      if name[0] == '"' {
        assert e[2..] == Escape(name[1..]);
      } else {
        assert e[1..] == Escape(name[1..]);
      }
    }
  }

  /** A name without quotes is quoted by wrapping alone. */
  lemma {:induction false} EscapeNoQuotes(name: string)
    requires '"' !in name
    ensures Escape(name) == name
  {
    if name != [] {
      assert '"' !in name[1..] by {
        forall i | 0 <= i < |name[1..]| ensures name[1..][i] != '"' {
          assert name[1..][i] == name[i + 1];
        }
      }
      EscapeNoQuotes(name[1..]);
    }
  }

  /** Escaping changes only quotes: it keeps every other character's count. */
  lemma {:induction false} EscapeKeepsOthers(name: string, c: char)
    requires c != '"'
    ensures Occurrences(Escape(name), c) == Occurrences(name, c)
  {
    if name != [] {
      var head := if name[0] == '"' then "\"\"" else [name[0]];
      EscapeKeepsOthers(name[1..], c);
      OccurrencesAppend(head, Escape(name[1..]), c);
      assert Occurrences(head, c) == (if name[0] == c then 1 else 0);
    }
  }

  /** Quoting keeps the count of every character other than the quote (`%` among them). */
  lemma QuoteKeepsOthers(name: string, c: char)
    requires c != '"'
    ensures Occurrences(Quote(name), c) == Occurrences(name, c)
  {
    EscapeKeepsOthers(name, c);
    OccurrencesAppend("\"", Escape(name), c);
    OccurrencesAppend("\"" + Escape(name), "\"", c);
  }

  /**
   * The lexer reads an escaped name back, followed by the closing quote,
   * and leaves whatever follows untouched, as long as what follows does
   * not itself begin with a quote.
   */
  lemma {:induction false} ReadEscaped(name: string, rest: string)
    requires rest == [] || rest[0] != '"'
    ensures ReadQuotedBody(Escape(name) + "\"" + rest) == Some((name, rest))
    decreases |name|
  {
    var s := Escape(name) + "\"" + rest;
    if name == [] {
      assert s == "\"" + rest;
      assert s[1..] == rest;
    } else if name[0] == '"' {
      assert s == "\"\"" + (Escape(name[1..]) + "\"" + rest);
      assert s[2..] == Escape(name[1..]) + "\"" + rest;
      ReadEscaped(name[1..], rest);
      assert "\"" + name[1..] == name;
    } else {
      assert s == [name[0]] + (Escape(name[1..]) + "\"" + rest);
      assert s[1..] == Escape(name[1..]) + "\"" + rest;
      ReadEscaped(name[1..], rest);
      assert [name[0]] + name[1..] == name;
    }
  }

  /**
   * A quoted identifier embedded in surrounding SQL text is read as exactly
   * one identifier, the original name, and the lexer resumes right after it.
   */
  lemma ReadQuote(name: string, rest: string)
    requires rest == [] || rest[0] != '"'
    ensures ReadQuoted(Quote(name) + rest) == Some((name, rest))
  {
    var e := Escape(name);
    var s := Quote(name) + rest;
    assert s == "\"" + (e + "\"" + rest);
    assert s[1..] == e + "\"" + rest;
    ReadEscaped(name, rest);
  }

  /** Un-doubling the interior recovers the original name. */
  lemma QuoteRoundTrip(name: string)
    ensures Unquote(Quote(name)) == Some(name)
  {
    ReadQuote(name, []);
    assert Quote(name) + [] == Quote(name);
  }

  /** Distinct names give distinct quoted identifiers. */
  lemma QuoteInjective(a: string, b: string)
    ensures Quote(a) == Quote(b) ==> a == b
  {
    QuoteRoundTrip(a);
    QuoteRoundTrip(b);
  }
}

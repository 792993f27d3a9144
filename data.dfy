/**
 * Values that cross the boundary of the generic CRUD layer: the JSON
 * scalars a client sends and receives, and the column values the database
 * driver hands back.
 */
module Data {

  datatype Option<+T> = None | Some(value: T)

  /** A JSON scalar as it appears in a request payload or a response. */
  datatype Json =
    | JNull
    | JBool(b: bool)
    | JNumber(n: int)
    | JString(s: string)

  /**
   * A column value as the driver returns it. `DateTime` stands for every
   * value that has an `isoformat()` method (date, time, datetime) and
   * carries that method's text; `Decimal` carries the text `str(v)` gives;
   * everything else is already a JSON scalar.
   */
  datatype Value =
    | DateTime(iso: string)
    | Decimal(text: string)
    | Scalar(json: Json)

  /** A serialised row: column name to JSON value. */
  type JsonRow = map<string, Json>

  /** Number of occurrences of `c` in `s`. */
  function Occurrences(s: string, c: char): nat
  {
    if s == [] then 0 else (if s[0] == c then 1 else 0) + Occurrences(s[1..], c)
  }

  lemma {:induction false} OccurrencesAppend(a: string, b: string, c: char)
    ensures Occurrences(a + b, c) == Occurrences(a, c) + Occurrences(b, c)
  {
    if a == [] {
      assert a + b == b;
    } else {
      OccurrencesAppend(a[1..], b, c);
      assert (a + b)[1..] == a[1..] + b;
    }
  }

  lemma {:induction false} NoOccurrences(s: string, c: char)
    requires c !in s
    ensures Occurrences(s, c) == 0
  {
    if s != [] {
      assert c !in s[1..] by {
        forall i | 0 <= i < |s[1..]| ensures s[1..][i] != c {
          assert s[1..][i] == s[i + 1];
        }
      }
      NoOccurrences(s[1..], c);
    }
  }

  lemma {:induction false} SomeOccurrence(s: string, c: char)
    requires c in s
    ensures Occurrences(s, c) >= 1
  {
    if s[0] != c {
      assert c in s[1..] by {
        var i :| 0 <= i < |s| && s[i] == c;
        assert s[1..][i - 1] == c;
      }
      SomeOccurrence(s[1..], c);
    }
  }
}

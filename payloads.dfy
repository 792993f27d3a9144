/**
 * Mutation payloads and key filtering: of the keys of a JSON request
 * object, only those that name a known column other than `id` are written,
 * in the order the client sent them; everything else is silently dropped.
 */
module Payloads {
  import opened Data

  /** A JSON request object: its key/value pairs in insertion order. */
  type Payload = seq<(string, Json)>

  /**
   * The body of a write request as the web framework parses it leniently:
   * absent or unparsable, a JSON object, or some other JSON value, which
   * is either falsy (`[]`, `0`, `""`, `false`, `null`) or truthy.
   */
  datatype JsonBody =
    | NoBody
    | ObjectBody(fields: Payload)
    | OtherBody(truthy: bool)

  /**
   * `request.get_json(silent=True) or {}` followed by `.keys()`: a missing
   * or falsy body acts as the empty object, and a truthy non-object body
   * has no keys to take, which fails (None).
   */
  function RequestData(body: JsonBody): Option<Payload>
  {
    match body
    case NoBody => Some([])
    case ObjectBody(fields) => Some(fields)
    case OtherBody(truthy) => if truthy then None else Some([])
  }

  /** A parsed JSON object is a dictionary: its keys are distinct. */
  predicate WellFormed(body: JsonBody)
  {
    body.ObjectBody? ==> DistinctKeys(body.fields)
  }

  /** The keys of a payload, in order. */
  function Keys(p: Payload): (ks: seq<string>)
    ensures |ks| == |p|
    ensures forall i :: 0 <= i < |p| ==> ks[i] == p[i].0
  {
    if p == [] then [] else [p[0].0] + Keys(p[1..])
  }

  predicate Distinct(s: seq<string>)
  {
    forall i, j :: 0 <= i < j < |s| ==> s[i] != s[j]
  }

  /** What a JSON object parsed into a dictionary always satisfies. */
  predicate DistinctKeys(p: Payload)
  {
    Distinct(Keys(p))
  }

  /** `data[k]`: the value the payload holds under key `k`. */
  function Get(p: Payload, k: string): (v: Json)
    requires k in Keys(p)
    ensures exists i :: 0 <= i < |p| && p[i].0 == k && p[i].1 == v
  {
    if p[0].0 == k then p[0].1 else Get(p[1..], k)
  }

  /** With distinct keys, `Get` finds the value paired with the key. */
  lemma GetAt(p: Payload, i: int)
    requires DistinctKeys(p) && 0 <= i < |p|
    ensures p[i].0 in Keys(p) && Get(p, p[i].0) == p[i].1
  {
    var v := Get(p, p[i].0);
    var j :| 0 <= j < |p| && p[j].0 == p[i].0 && p[j].1 == v;
    assert Keys(p)[i] == p[i].0 && Keys(p)[j] == p[j].0;
  }

  /** A payload key the routes write: a known column that is not `id`. */
  predicate Writable(cols: seq<string>, k: string)
  {
    k in cols && k != "id"
  }

  /** `[k for k in keys if k in cols and k != 'id']`. */
  function AcceptedKeys(keys: seq<string>, cols: seq<string>): (ks: seq<string>)
    ensures forall k :: k in ks <==> k in keys && Writable(cols, k)
  {
    if keys == [] then []
    else (if Writable(cols, keys[0]) then [keys[0]] else []) + AcceptedKeys(keys[1..], cols)
  }

  /** `s` is obtained from `t` by leaving out elements, keeping the order. */
  predicate IsSubsequence(s: seq<string>, t: seq<string>)
    decreases |t|
  {
    if s == [] then true
    else if t == [] then false
    else if s[0] == t[0] then IsSubsequence(s[1..], t[1..])
    else IsSubsequence(s, t[1..])
  }

  lemma {:induction false} SubsequenceElements(s: seq<string>, t: seq<string>)
    requires IsSubsequence(s, t)
    ensures forall x :: x in s ==> x in t
    decreases |t|
  {
    if s != [] && t != [] {
      if s[0] == t[0] {
        SubsequenceElements(s[1..], t[1..]);
        assert forall x :: x in s ==> x == s[0] || x in s[1..];
      } else {
        SubsequenceElements(s, t[1..]);
      }
    }
  }

  /**
   * The accepted keys are exactly the writable payload keys, in payload
   * order, and without repetition when the payload has none.
   */
  lemma {:induction false} AcceptedKeysSpec(keys: seq<string>, cols: seq<string>)
    ensures IsSubsequence(AcceptedKeys(keys, cols), keys)
    ensures Distinct(keys) ==> Distinct(AcceptedKeys(keys, cols))
  {
    if keys != [] {
      var k, ks := keys[0], keys[1..];
      var rest := AcceptedKeys(ks, cols);
      AcceptedKeysSpec(ks, cols);
      assert forall x :: x in keys <==> x == k || x in ks;
      if Writable(cols, k) {
        assert AcceptedKeys(keys, cols) == [k] + rest;
        assert ([k] + rest)[1..] == rest;
        if Distinct(keys) {
          assert Distinct(ks) by {
            forall i, j | 0 <= i < j < |ks| ensures ks[i] != ks[j] {
              assert ks[i] == keys[i + 1] && ks[j] == keys[j + 1];
            }
          }
          assert k !in ks by {
            forall i | 0 <= i < |ks| ensures ks[i] != k {
              assert ks[i] == keys[i + 1];
            }
          }
          forall i, j | 0 <= i < j < |[k] + rest| ensures ([k] + rest)[i] != ([k] + rest)[j] {
            if i > 0 {
              assert ([k] + rest)[i] == rest[i - 1] && ([k] + rest)[j] == rest[j - 1];
            } else {
              assert ([k] + rest)[j] == rest[j - 1];
              assert rest[j - 1] in rest;
            }
          }
        }
      } else {
        assert AcceptedKeys(keys, cols) == rest;
        if rest != [] {
          SubsequenceStep(rest, keys);
        }
        if Distinct(keys) {
          assert Distinct(ks) by {
            forall i, j | 0 <= i < j < |ks| ensures ks[i] != ks[j] {
              assert ks[i] == keys[i + 1] && ks[j] == keys[j + 1];
            }
          }
        }
      }
    }
  }

  /** A subsequence of the tail is a subsequence of the whole. */
  lemma {:induction false} SubsequenceStep(s: seq<string>, t: seq<string>)
    requires t != [] && IsSubsequence(s, t[1..])
    ensures IsSubsequence(s, t)
    decreases |t|, |s|
  {
    if s != [] && s[0] == t[0] {
      // Matching the head greedily leaves the rest of `s` against the tail.
      SubsequenceTail(s, t[1..]);
    }
  }

  /** Dropping the head of a subsequence keeps it a subsequence. */
  lemma {:induction false} SubsequenceTail(s: seq<string>, t: seq<string>)
    requires s != [] && IsSubsequence(s, t)
    ensures IsSubsequence(s[1..], t)
    decreases |t|, |s|
  {
    if t != [] {
      if s[0] == t[0] {
        if s[1..] != [] {
          SubsequenceStep(s[1..], t);
        }
      } else {
        SubsequenceTail(s, t[1..]);
        SubsequenceStep(s[1..], t);
      }
    }
  }

  /**
   * Filtering is the only order-keeping choice: any subsequence of
   * distinct keys holding exactly the writable keys is the filtered list.
   */
  lemma {:induction false} AcceptedKeysUnique(keys: seq<string>, cols: seq<string>, s: seq<string>)
    requires Distinct(keys) && IsSubsequence(s, keys)
    requires forall k :: k in s <==> k in keys && Writable(cols, k)
    ensures s == AcceptedKeys(keys, cols)
  {
    if keys == [] {
      assert s == [];
    } else {
      var k, ks := keys[0], keys[1..];
      assert Distinct(ks) by {
        forall i, j | 0 <= i < j < |ks| ensures ks[i] != ks[j] {
          assert ks[i] == keys[i + 1] && ks[j] == keys[j + 1];
        }
      }
      assert k !in ks by {
        forall i | 0 <= i < |ks| ensures ks[i] != k {
          assert ks[i] == keys[i + 1];
        }
      }
      assert forall x :: x in keys <==> x == k || x in ks;
      if Writable(cols, k) {
        assert k in s;
        if s[0] != k {
          SubsequenceElements(s, ks);
          assert false;
        }
        var t := s[1..];
        assert IsSubsequence(t, ks);
        SubsequenceElements(t, ks);
        assert forall x :: x in s <==> x == k || x in t;
        AcceptedKeysUnique(ks, cols, t);
        assert s == [k] + t;
      } else {
        assert k !in s;
        if s != [] {
          assert IsSubsequence(s, ks);
        }
        SubsequenceElements(s, keys);
        AcceptedKeysUnique(ks, cols, s);
      }
    }
  }

  /** `[data[k] for k in keys]`: the payload's values for the given keys. */
  function Values(p: Payload, keys: seq<string>): seq<Json>
    requires forall k :: k in keys ==> k in Keys(p)
  {
    seq(|keys|, i requires 0 <= i < |keys| => Get(p, keys[i]))
  }

  /**
   * The values sent for the accepted keys of a dictionary are the
   * payload's own values for those keys, position by position.
   */
  lemma ValuesOfAcceptedKeys(p: Payload, cols: seq<string>)
    ensures var ks := AcceptedKeys(Keys(p), cols);
      (forall k :: k in ks ==> k in Keys(p)) &&
      |Values(p, ks)| == |ks| &&
      forall i :: 0 <= i < |ks| ==>
        exists j :: 0 <= j < |p| && p[j].0 == ks[i] && p[j].1 == Values(p, ks)[i]
  {
    var ks := AcceptedKeys(Keys(p), cols);
    forall i | 0 <= i < |ks|
      ensures exists j :: 0 <= j < |p| && p[j].0 == ks[i] && p[j].1 == Values(p, ks)[i]
    {
      assert ks[i] in ks;
      assert Values(p, ks)[i] == Get(p, ks[i]);
    }
  }
}

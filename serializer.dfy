/**
 * Turning a database row into a JSON object: column `cols[i]` gets the
 * value `row[i]`, with date/time values written as their ISO text and
 * exact decimals as their decimal text; every other value passes through.
 */
module Serializer {
  import opened Data

  /**
   * One database value as it appears in a JSON response: date/time values
   * as their ISO text, decimals as their exact text, anything else as is.
   */
  function Serialize(v: Value): Json
  {
    match v
    case DateTime(iso) => JString(iso)
    case Decimal(text) => JString(text)
    case Scalar(json) => json
  }

  /**
   * The object built from the first `|cols|` values of `row`, assigning
   * columns left to right, so that a later column of the same name
   * overwrites an earlier one.
   */
  function JsonRowOf(cols: seq<string>, row: seq<Value>): JsonRow
    requires |row| >= |cols|
  {
    if cols == [] then map[]
    else JsonRowOf(cols[..|cols| - 1], row)[cols[|cols| - 1] := Serialize(row[|cols| - 1])]
  }

  /** The loop of the route helper: one assignment per column, in order. */
  method ToJsonRow(cols: seq<string>, row: seq<Value>) returns (out: JsonRow)
    requires |row| >= |cols|
    ensures out == JsonRowOf(cols, row)
  {
    out := map[];
    var i := 0;
    while i < |cols|
      invariant 0 <= i <= |cols|
      invariant out == JsonRowOf(cols[..i], row)
    {
      assert cols[..i + 1][..i] == cols[..i];
      out := out[cols[i] := Serialize(row[i])];
      i := i + 1;
    }
    assert cols[..i] == cols;
  }

  /** `[to_json_row(cols, r) for r in rows]`. */
  method ToJsonRows(cols: seq<string>, rows: seq<seq<Value>>) returns (objs: seq<JsonRow>)
    requires forall k :: 0 <= k < |rows| ==> |rows[k]| >= |cols|
    ensures |objs| == |rows|
    ensures forall k :: 0 <= k < |rows| ==> objs[k] == JsonRowOf(cols, rows[k])
  {
    objs := [];
    var k := 0;
    while k < |rows|
      invariant 0 <= k <= |rows|
      invariant |objs| == k
      invariant forall m :: 0 <= m < k ==> objs[m] == JsonRowOf(cols, rows[m])
    {
      var obj := ToJsonRow(cols, rows[k]);
      objs := objs + [obj];
      k := k + 1;
    }
  }

  /** The object has exactly the column names as keys. */
  lemma {:induction false} JsonRowKeys(cols: seq<string>, row: seq<Value>)
    requires |row| >= |cols|
    ensures JsonRowOf(cols, row).Keys == set c | c in cols
  {
    if cols != [] {
      var init := cols[..|cols| - 1];
      JsonRowKeys(init, row);
      assert forall c :: c in cols <==> c in init || c == cols[|cols| - 1];
    }
  }

  /**
   * A column holds the serialized value of its last position in `cols`:
   * with distinct column names, the value at its own position.
   */
  lemma {:induction false} JsonRowAt(cols: seq<string>, row: seq<Value>, i: int)
    requires |row| >= |cols| && 0 <= i < |cols|
    requires forall j :: i < j < |cols| ==> cols[j] != cols[i]
    ensures cols[i] in JsonRowOf(cols, row)
    ensures JsonRowOf(cols, row)[cols[i]] == Serialize(row[i])
  {
    var n := |cols| - 1;
    if i < n {
      var init := cols[..n];
      JsonRowAt(init, row, i);
      assert cols[n] != cols[i];
    }
  }

  /** Only the first `|cols|` values of the row are read. */
  lemma {:induction false} JsonRowPrefix(cols: seq<string>, row: seq<Value>, row': seq<Value>)
    requires |row| >= |cols| && |row'| >= |cols|
    requires row[..|cols|] == row'[..|cols|]
    ensures JsonRowOf(cols, row) == JsonRowOf(cols, row')
  {
    if cols != [] {
      var n := |cols| - 1;
      assert row[..n] == row[..|cols|][..n] && row'[..n] == row'[..|cols|][..n];
      assert row[n] == row[..|cols|][n] && row'[n] == row'[..|cols|][n];
      JsonRowPrefix(cols[..n], row, row');
    }
  }
}

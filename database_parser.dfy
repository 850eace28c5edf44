/**
 * `DatabaseParser` (src/Parsers/DatabaseParser.php): the descriptor
 * check, and the fold that turns the fetched `key`/`value` rows into a
 * configuration tree. The connection and the query are not modelled; the
 * rows they return are the input.
 */
module DatabaseParser {
  import opened Wrappers
  import opened PhpValues
  import opened PhpStrings
  import opened Merge
  import opened Parser

  /** `isset($config[$key])`: the key is present and does not hold null. */
  predicate IsSet(config: Value, key: string)
    requires config.Arr?
  {
    StrKey(key) in config.vals && !config.vals[StrKey(key)].Null?
  }

  /** The descriptor entries the parser insists on, in the order it checks them. */
  const Required: seq<string> := ["username", "schema", "table"]

  /**
   * `checkConfig`: the descriptor must be an array holding a username, a
   * schema and a table; the first one missing is the one reported.
   */
  function CheckConfig(config: Value): (r: Outcome)
    ensures !config.Arr? ==> r == Fail(DatabaseParserClass + " config must be an array")
    ensures r.Pass? <==> config.Arr? && forall i | 0 <= i < |Required| :: IsSet(config, Required[i])
    ensures r.Fail? && config.Arr? ==>
      exists i | 0 <= i < |Required| ::
        && r.message == DatabaseParserClass + " config " + Required[i] + " not set"
        && !IsSet(config, Required[i])
        && forall j | 0 <= j < i :: IsSet(config, Required[j])
  {
    if !config.Arr? then Fail(DatabaseParserClass + " config must be an array")
    else if !IsSet(config, Required[0]) then NotSet(0)
    else if !IsSet(config, Required[1]) then NotSet(1)
    else if !IsSet(config, Required[2]) then NotSet(2)
    else Pass
  }

  /** The failure naming the `i`-th required entry. */
  function NotSet(i: nat): (r: Outcome)
    requires i < |Required|
    ensures r.Fail? && r.message == DatabaseParserClass + " config " + Required[i] + " not set"
  {
    Fail(DatabaseParserClass + " config " + Required[i] + " not set")
  }

  /** One fetched row: its `key` column, the primary key, and its `value` column, which may be NULL. */
  datatype Row = Row(key: string, value: Option<string>)

  /** The path a row's dotted key names, as PHP array keys. */
  function RowPath(row: Row): seq<Key> {
    NormKeys(Split(row.key, '.'))
  }

  /** What one row with a value contributes: `getValue` of its value, at the end of its dotted key. */
  function RowTree(row: Row): (r: Value)
    requires row.value.Some?
    ensures r == Nest(RowPath(row), GetValue(row.value.value)) && r.Arr?
  {
    AddedChildToEmpty(Split(row.key, '.'), GetValue(row.value.value));
    AddedChild(Empty, Split(row.key, '.'), GetValue(row.value.value))
  }

  /**
   * The tree the rows fold into: each row's tree merged over everything
   * before it. A NULL value reaches `getValue`, whose strict `string`
   * parameter stops the fold with its TypeError.
   */
  function RowsTree(rows: seq<Row>): (r: Result<Value>)
    ensures r.Ok? ==> r.value.Arr?
    ensures r.Err? ==> r.message == NullValueError
  {
    if rows == [] then Ok(Empty)
    else
      var row := rows[|rows| - 1];
      match RowsTree(rows[..|rows| - 1])
      case Err(m) => Err(m)
      case Ok(data) =>
        if row.value.None? then Err(NullValueError) else Ok(ReplaceRecursive(data, RowTree(row)))
  }

  /** The row loop of `parse`: a fresh tree per row through `addChild`, merged into `$data`. */
  method ParseRows(rows: seq<Row>) returns (r: Result<Value>)
    ensures r == RowsTree(rows)
  {
    var data := Empty;
    var i := 0;
    while i < |rows|
      invariant 0 <= i <= |rows|
      invariant RowsTree(rows[..i]) == Ok(data)
    {
      var row := rows[i];
      var key := Split(row.key, '.');
      RowsStep(rows, i, data);
      if row.value.None? {
        RowsStayFailed(rows, i + 1);
        return Err(NullValueError);
      }
      var value := GetValue(row.value.value);
      var parent := AddChild(Empty, key, value);
      data := ReplaceRecursive(data, parent);
      i := i + 1;
    }
    assert rows[..i] == rows;
    r := Ok(data);
  }

  lemma RowsStep(rows: seq<Row>, i: nat, data: Value)
    requires i < |rows| && RowsTree(rows[..i]) == Ok(data)
    ensures rows[i].value.None? ==> RowsTree(rows[..i + 1]) == Err(NullValueError)
    ensures rows[i].value.Some? ==>
      RowsTree(rows[..i + 1]) == Ok(ReplaceRecursive(data, AddedChild(Empty, Split(rows[i].key, '.'), GetValue(rows[i].value.value))))
  {
    assert rows[..i + 1][..i] == rows[..i];
  }

  /** Once a row fails, the fold stays failed whatever follows. */
  lemma {:induction false} RowsStayFailed(rows: seq<Row>, n: nat)
    requires n <= |rows| && RowsTree(rows[..n]).Err?
    ensures RowsTree(rows) == RowsTree(rows[..n])
    decreases |rows|
  {
    if n < |rows| {
      var prefix := rows[..|rows| - 1];
      assert prefix[..n] == rows[..n];
      RowsStayFailed(prefix, n);
    } else {
      assert rows[..n] == rows;
    }
  }

  /** The rows fail to parse exactly when one of them has a NULL value. */
  lemma {:induction false} RowsFail(rows: seq<Row>)
    ensures RowsTree(rows).Err? <==> exists i | 0 <= i < |rows| :: rows[i].value.None?
  {
    if rows != [] {
      RowsFail(rows[..|rows| - 1]);
      RowsFailStep(rows);
      NullStep(rows);
    }
  }

  /** Some row's value is NULL. */
  predicate HasNull(rows: seq<Row>) {
    exists i | 0 <= i < |rows| :: rows[i].value.None?
  }

  /** Some row is NULL exactly when some earlier row is, or the last one. */
  lemma NullStep(rows: seq<Row>)
    requires rows != []
    ensures HasNull(rows) <==> HasNull(rows[..|rows| - 1]) || rows[|rows| - 1].value.None?
  {
    var prefix := rows[..|rows| - 1];
    if HasNull(rows) {
      var i :| 0 <= i < |rows| && rows[i].value.None?;
      if i < |prefix| {
        assert prefix[i] == rows[i];
      }
    }
    if HasNull(prefix) {
      var i :| 0 <= i < |prefix| && prefix[i].value.None?;
      assert rows[i] == prefix[i];
    }
  }

  /** One more row fails the fold exactly when the fold had failed or the row's value is NULL. */
  lemma RowsFailStep(rows: seq<Row>)
    requires rows != []
    ensures RowsTree(rows).Err? <==> RowsTree(rows[..|rows| - 1]).Err? || rows[|rows| - 1].value.None?
  {
  }

  /** The last row's value is what its path reaches, whatever came before. */
  lemma LastRowWins(rows: seq<Row>, row: Row)
    requires RowsTree(rows).Ok? && row.value.Some?
    ensures RowsTree(rows + [row]).Ok?
    ensures Lookup(RowsTree(rows + [row]).value, RowPath(row)) == Some(GetValue(row.value.value))
  {
    assert (rows + [row])[..|rows|] == rows;
    NestLookup(RowPath(row), GetValue(row.value.value));
    OverlayLeafHolds(RowsTree(rows).value, RowTree(row), RowPath(row));
  }

  /** A later row leaves alone every earlier path that parts from its own. */
  lemma DisjointRowKept(rows: seq<Row>, row: Row, p: seq<Key>)
    requires RowsTree(rows).Ok? && row.value.Some?
    requires Diverge(p, RowPath(row)) && Lookup(RowsTree(rows).value, p).Some?
    ensures RowsTree(rows + [row]).Ok?
    ensures Lookup(RowsTree(rows + [row]).value, p) == Lookup(RowsTree(rows).value, p)
  {
    assert (rows + [row])[..|rows|] == rows;
    DivergentPathKept(RowsTree(rows).value, RowPath(row), GetValue(row.value.value), p);
  }

  /** The rows, when they parse, fold into a genuine PHP array. */
  lemma {:induction false} RowsTreeWF(rows: seq<Row>)
    requires RowsTree(rows).Ok?
    ensures WF(RowsTree(rows).value)
  {
    if rows != [] {
      var prefix := rows[..|rows| - 1];
      var row := rows[|rows| - 1];
      RowsTreeWF(prefix);
      NestWF(RowPath(row), GetValue(row.value.value));
      PreservesWF(RowsTree(prefix).value, RowTree(row));
    }
  }

  /** The first key of each row's path, in row order, each kept only at its first occurrence. */
  function FirstKeys(rows: seq<Row>): (r: seq<Key>)
  {
    if rows == [] then []
    else
      var prev := FirstKeys(rows[..|rows| - 1]);
      var k := RowPath(rows[|rows| - 1])[0];
      if k in prev then prev else prev + [k]
  }

  /**
   * No sorting: the top-level keys come in the order the rows first reach
   * them, which is the order the query returned the rows in.
   */
  lemma {:induction false} RowsTreeKeyOrder(rows: seq<Row>)
    requires RowsTree(rows).Ok?
    ensures RowsTree(rows).value.keys == FirstKeys(rows)
  {
    if rows != [] {
      var prefix := rows[..|rows| - 1];
      var row := rows[|rows| - 1];
      RowsTreeKeyOrder(prefix);
      SingleKeyMerged(RowsTree(prefix).value, RowTree(row), RowPath(row)[0]);
    }
  }
}

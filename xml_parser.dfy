/**
 * `XmlParser::parse` (src/Parsers/XmlParser.php) after the document has been
 * loaded as `JsonXMLElement`s and taken through `json_encode`/`json_decode`:
 * every leaf string read by `getValue`, the instances collected, the whole
 * tree sorted by key.
 */
module XmlParser {
  import opened Wrappers
  import opened PhpValues
  import opened Parser

  /**
   * What `json_decode` of a serialized element can hold, and what
   * `parseValue(array|string $value)` accepts at every level: strings, and
   * arrays of such.
   */
  ghost predicate StrTree(v: Value) {
    v.Str? || (v.Arr? && forall k | k in v.vals :: StrTree(v.vals[k]))
  }

  /** The warning `foreach` raises on a non-array, turned into an exception by `parseOrThrow`. */
  function ForeachError(v: Value): string {
    XmlParserClass + ": foreach() argument must be of type array|object, " + TypeName(v) + " given"
  }

  /** `parseValue`: the same tree, keys and order kept, with every leaf string read by `getValue`. */
  function ParsedValue(v: Value): (r: Value)
    requires StrTree(v)
    ensures v.Arr? <==> r.Arr?
    decreases v
  {
    if v.Arr? then Arr(v.keys, map k | k in v.vals :: ParsedValue(v.vals[k]))
    else GetValue(v.s)
  }

  /** `parseValue`, rewriting the array's values in place through its by-reference `foreach`. */
  method ParseValue(v: Value) returns (r: Value)
    requires StrTree(v) && WF(v)
    ensures r == ParsedValue(v)
    decreases v
  {
    if !v.Arr? {
      return GetValue(v.s);
    }
    ghost var target := map k | k in v.vals :: ParsedValue(v.vals[k]);
    var vals := v.vals;
    var i := 0;
    while i < |v.keys|
      invariant 0 <= i <= |v.keys|
      invariant vals == Replaced(v.vals, target, v.keys[..i])
    {
      var k := v.keys[i];
      assert k in (set x | x in v.keys);
      var x := ParseValue(v.vals[k]);
      assert x == target[k];
      ReplacedStep(v.vals, target, v.keys, i);
      vals := vals[k := x];
      i := i + 1;
    }
    assert v.keys[..i] == v.keys;
    assert forall k | k in v.vals :: k in (set x | x in v.keys);
    ReplacedAll(v.vals, target, v.keys);
    r := Arr(v.keys, vals);
  }

  /** The instances folded in order: each instance key holding its parsed values; a non-array stops it. */
  function Instances(instances: seq<(Key, Value)>): (r: Result<Value>)
    requires forall i | 0 <= i < |instances| :: StrTree(instances[i].1)
    ensures r.Ok? ==> r.value.Arr?
  {
    if instances == [] then Ok(Empty)
    else
      var last := instances[|instances| - 1];
      match Instances(instances[..|instances| - 1])
      case Err(m) => Err(m)
      case Ok(data) =>
        if !last.1.Arr? then Err(ForeachError(last.1))
        else Ok(Put(data, last.0, ParsedValue(last.1)))
  }

  lemma InstancesStep(instances: seq<(Key, Value)>, i: nat)
    requires forall j | 0 <= j < |instances| :: StrTree(instances[j].1)
    requires i < |instances| && Instances(instances[..i]).Ok?
    ensures !instances[i].1.Arr? ==> Instances(instances[..i + 1]) == Err(ForeachError(instances[i].1))
    ensures instances[i].1.Arr? ==>
      Instances(instances[..i + 1]) == Ok(Put(Instances(instances[..i]).value, instances[i].0, ParsedValue(instances[i].1)))
  {
    assert instances[..i + 1][..i] == instances[..i];
  }

  /** The decoded document's entries, once each is known to be a string tree. */
  lemma StrTreeEntries(config: Value)
    requires WF(config) && config.Arr? && StrTree(config)
    ensures forall i | 0 <= i < |Entries(config)| :: StrTree(Entries(config)[i].1)
  {
  }

  /** What `parse` returns for the decoded document. */
  function Parsed(config: Value): (r: Result<Value>)
    requires WF(config) && StrTree(config)
    ensures !config.Arr? ==> r == Err(ForeachError(config))
  {
    if !config.Arr? then Err(ForeachError(config))
    else
      StrTreeEntries(config);
      match Instances(Entries(config))
      case Err(m) => Err(m)
      case Ok(data) => Ok(SortedTree(data))
  }

  /** The instance loop of `parse`, then `ksortRecursive`. */
  method Parse(config: Value) returns (r: Result<Value>)
    requires WF(config) && StrTree(config)
    ensures r == Parsed(config)
  {
    if !config.Arr? {
      return Err(ForeachError(config));
    }
    var instances := Entries(config);
    StrTreeEntries(config);
    var data := Empty;
    var i := 0;
    while i < |config.keys|
      invariant 0 <= i <= |config.keys|
      invariant Instances(instances[..i]) == Ok(data)
    {
      var instance := config.keys[i];
      var values := config.vals[instance];
      InstancesStep(instances, i);
      if !values.Arr? {
        InstancesStayFailed(instances, i + 1);
        return Err(ForeachError(values));
      }
      var parsed := ParseValue(values);
      data := Put(data, instance, parsed);
      i := i + 1;
    }
    assert instances[..i] == instances;
    InstancesWF(instances);
    var sorted := KsortRecursive(data);
    r := Ok(sorted);
  }

  /** Once an instance fails, the whole fold fails with its message. */
  lemma {:induction false} InstancesStayFailed(instances: seq<(Key, Value)>, n: nat)
    requires forall i | 0 <= i < |instances| :: StrTree(instances[i].1)
    requires n <= |instances| && Instances(instances[..n]).Err?
    ensures Instances(instances) == Instances(instances[..n])
    decreases |instances|
  {
    if n < |instances| {
      var prefix := instances[..|instances| - 1];
      assert prefix[..n] == instances[..n];
      InstancesStayFailed(prefix, n);
    } else {
      assert instances[..n] == instances;
    }
  }

  /** `parseValue` on a string is `getValue` on it. */
  lemma LeafRead(s: string)
    ensures ParsedValue(Str(s)) == GetValue(s)
  {
  }

  /**
   * `parseValue` moves nothing: a path reaches something in the result
   * exactly when it reaches something in the input, and then it reaches
   * the parsed form of it. In particular every leaf string `s` becomes
   * `getValue(s)` where it stood.
   */
  lemma {:induction false} ParsedValueLookup(v: Value, path: seq<Key>)
    requires StrTree(v)
    ensures Lookup(ParsedValue(v), path).Some? <==> Lookup(v, path).Some?
    ensures Lookup(v, path).Some? ==> StrTree(Lookup(v, path).value) && Lookup(ParsedValue(v), path) == Some(ParsedValue(Lookup(v, path).value))
    decreases path
  {
    if path != [] && v.Arr? && path[0] in v.vals {
      ParsedValueLookup(v.vals[path[0]], path[1..]);
    }
  }

  /** A leaf string of the input is read by `getValue` where it stands. */
  lemma LeafCoerced(v: Value, path: seq<Key>, s: string)
    requires StrTree(v) && Lookup(v, path) == Some(Str(s))
    ensures Lookup(ParsedValue(v), path) == Some(GetValue(s))
  {
    ParsedValueLookup(v, path);
  }

  /** The same keys in the same order at every level. */
  ghost predicate SameShape(a: Value, b: Value) {
    && (a.Arr? <==> b.Arr?)
    && (a.Arr? ==>
      && a.keys == b.keys
      && a.vals.Keys == b.vals.Keys
      && forall k | k in a.vals :: SameShape(a.vals[k], b.vals[k]))
  }

  /** `parseValue` keeps the shape: only leaves change, and a genuine array stays one. */
  lemma {:induction false} ParsedValueShape(v: Value)
    requires StrTree(v)
    ensures SameShape(v, ParsedValue(v))
    ensures WF(v) ==> WF(ParsedValue(v))
    decreases v
  {
    if v.Arr? {
      forall k | k in v.vals ensures SameShape(v.vals[k], ParsedValue(v).vals[k]) && (WF(v.vals[k]) ==> WF(ParsedValue(v).vals[k])) {
        ParsedValueShape(v.vals[k]);
      }
    }
  }

  /** The instances fold into a genuine PHP array. */
  lemma {:induction false} InstancesWF(instances: seq<(Key, Value)>)
    requires forall i | 0 <= i < |instances| :: StrTree(instances[i].1) && WF(instances[i].1)
    requires Instances(instances).Ok?
    ensures WF(Instances(instances).value)
  {
    if instances != [] {
      var prefix := instances[..|instances| - 1];
      var last := instances[|instances| - 1];
      InstancesWF(prefix);
      ParsedValueShape(last.1);
      PutWF(Instances(prefix).value, last.0, ParsedValue(last.1));
    }
  }

  /**
   * Distinct instances yield one key each, in input order, each holding its
   * values through `parseValue`.
   */
  lemma {:induction false} InstancesKept(instances: seq<(Key, Value)>)
    requires forall i | 0 <= i < |instances| :: StrTree(instances[i].1)
    requires forall i, j | 0 <= i < j < |instances| :: instances[i].0 != instances[j].0
    requires Instances(instances).Ok?
    ensures |Instances(instances).value.keys| == |instances|
    ensures forall i | 0 <= i < |instances| ::
      && Instances(instances).value.keys[i] == instances[i].0
      && instances[i].0 in Instances(instances).value.vals
      && Instances(instances).value.vals[instances[i].0] == ParsedValue(instances[i].1)
  {
    if instances != [] {
      var prefix := instances[..|instances| - 1];
      var last := instances[|instances| - 1];
      InstancesKept(prefix);
      var data := Instances(prefix).value;
      assert last.0 !in data.keys by {
        forall i | 0 <= i < |data.keys| ensures data.keys[i] != last.0 {
          assert data.keys[i] == instances[i].0;
        }
      }
    }
  }

  /** Every instance of the document is kept, holding its values through `parseValue`. */
  lemma ParsedInstances(config: Value, i: nat)
    requires WF(config) && StrTree(config) && config.Arr? && Instances(Entries(config)).Ok?
    requires i < |config.keys|
    ensures config.keys[i] in Instances(Entries(config)).value.vals
    ensures Instances(Entries(config)).value.vals[config.keys[i]] == ParsedValue(config.vals[config.keys[i]])
  {
    var instances := Entries(config);
    EntriesDistinct(config);
    InstancesKept(instances);
    assert instances[i] == (config.keys[i], config.vals[config.keys[i]]);
  }

  /** The instances of a document are its distinct keys. */
  lemma EntriesDistinct(config: Value)
    requires WF(config) && config.Arr?
    ensures forall a, b | 0 <= a < b < |Entries(config)| :: Entries(config)[a].0 != Entries(config)[b].0
  {
  }

  /** The result is sorted by key at every level. */
  lemma ParsedSorted(config: Value)
    requires WF(config) && StrTree(config) && Parsed(config).Ok?
    ensures DeepSorted(Parsed(config).value) && WF(Parsed(config).value)
  {
    StrTreeEntries(config);
    InstancesWF(Entries(config));
    SortedTreeSorted(Instances(Entries(config)).value);
  }
}

/**
 * The helpers every parser shares (src/Parsers/Parser.php): scalar
 * coercion, dotted-key tree building, recursive key sorting, and the
 * check that a file parser was given a path.
 */
module Parser {
  import opened Wrappers
  import opened PhpValues
  import opened PhpStrings
  import opened KeyOrder
  import opened Numeric

  // ---------------------------------------------------------------------
  // getValue
  // ---------------------------------------------------------------------

  /** `substr($value, 1, -1)`: the string without its first and last byte. */
  function Inner(s: string): (r: string)
    ensures |s| >= 2 ==> s == [s[0]] + r + [s[|s| - 1]]
  {
    if |s| >= 2 then s[1..|s| - 1] else ""
  }

  /**
   * `getValue`: the trimmed string read as a PHP scalar. Case-insensitive
   * `true`, `false` and `null` come first, then in-range numeric strings
   * (float when they contain a point, int otherwise), then double-quoted
   * strings (quotes dropped, `\"` and `\\` unescaped), then single-quoted
   * strings (quotes dropped, nothing unescaped); anything else stays the
   * trimmed string.
   */
  function GetValue(raw: string): (r: Value)
    ensures !r.Arr?
    ensures r == Bool(true) <==> ToLower(Trim(raw)) == "true"
    ensures r == Bool(false) <==> ToLower(Trim(raw)) == "false"
    ensures r == Null <==> ToLower(Trim(raw)) == "null"
    ensures r.Int? ==> IsNumeric(Trim(raw)) && '.' !in Trim(raw) && PHP_INT_MIN <= r.i <= PHP_INT_MAX
    ensures r.Float? ==> r.lexeme == Trim(raw) && IsNumeric(r.lexeme) && '.' in r.lexeme
    ensures r.Str? ==> |r.s| <= |Trim(raw)|
  {
    var value := Trim(raw);
    var lower := ToLower(value);
    if lower == "true" then Bool(true)
    else if lower == "false" then Bool(false)
    else if lower == "null" then Null
    else if IsNumeric(value) && InIntRange(value) then
      if '.' in value then Float(value) else Int(IntCast(value))
    else if StartsWith(value, '"') && EndsWith(value, '"') then Str(Unescape(Inner(value)))
    else if StartsWith(value, '\'') && EndsWith(value, '\'') then Str(Inner(value))
    else Str(value)
  }

  /**
   * The fall-through: a value holding no quote that is neither a keyword nor
   * an in-range number is returned as the trimmed string.
   */
  lemma PlainString(raw: string)
    requires '"' !in Trim(raw) && '\'' !in Trim(raw)
    requires ToLower(Trim(raw)) != "true" && ToLower(Trim(raw)) != "false" && ToLower(Trim(raw)) != "null"
    requires !(IsNumeric(Trim(raw)) && InIntRange(Trim(raw)))
    ensures GetValue(raw) == Str(Trim(raw))
  {
    var v := Trim(raw);
    if |v| > 0 {
      assert v[0] in v;
      assert v[|v| - 1] in v;
    }
  }

  /** A string whose stripped core holds a quote byte is never numeric. */
  lemma QuoteNotNumeric(s: string, q: char)
    requires q == '"' || q == '\''
    requires q in Core(s)
    ensures !IsNumeric(s)
  {
    if IsNumeric(s) {
      NumericChars(s);
    }
  }

  /** A string holding a quote byte is none of the keywords. */
  lemma QuoteNotKeyword(s: string, q: char)
    requires q == '"' || q == '\''
    requires q in s
    ensures ToLower(s) != "true" && ToLower(s) != "false" && ToLower(s) != "null"
  {
    var i :| 0 <= i < |s| && s[i] == q;
    assert ToLower(s)[i] == q;
  }

  /**
   * The TypeError `getValue`'s `string` parameter raises when it is handed
   * null: a NULL column, or the missing half of a line split at `=`.
   */
  const NullValueError := "Framework\\Config\\Parsers\\Parser::getValue(): Argument #1 ($value) must be of type string, null given"

  /** A byte that is not numeric whitespace survives the stripping of the whitespace around a string. */
  lemma {:induction false} InCore(s: string, c: char)
    requires c in s && !IsNumWs(c)
    ensures c in Core(s)
  {
    InLeading(s, c);
    InTrailing(DropLeadingWs(s), c);
  }

  lemma {:induction false} InLeading(s: string, c: char)
    requires c in s && !IsNumWs(c)
    ensures c in DropLeadingWs(s)
  {
    if IsNumWs(s[0]) {
      assert c in s[1..] by {
        var i :| 0 <= i < |s| && s[i] == c;
        assert s[1..][i - 1] == c;
      }
      InLeading(s[1..], c);
    }
  }

  lemma {:induction false} InTrailing(s: string, c: char)
    requires c in s && !IsNumWs(c)
    ensures c in DropTrailingWs(s)
    decreases |s|
  {
    if IsNumWs(s[|s| - 1]) {
      assert c in s[..|s| - 1] by {
        var i :| 0 <= i < |s| && s[i] == c;
        assert s[..|s| - 1][i] == c;
      }
      InTrailing(s[..|s| - 1], c);
    }
  }

  /** A numeric string is none of the keywords: a keyword's letters are no number characters. */
  lemma NumericNotKeyword(v: string)
    requires IsNumeric(v)
    ensures ToLower(v) != "true" && ToLower(v) != "false" && ToLower(v) != "null"
  {
    if ToLower(v) == "true" || ToLower(v) == "false" || ToLower(v) == "null" {
      assert LowerChar(v[0]) == ToLower(v)[0];
      NumericChars(v);
      InCore(v, v[0]);
    }
  }

  /**
   * An in-range numeric string is read as a number: a float (kept as its
   * text) when it holds a point, the int it casts to otherwise.
   */
  lemma NumericRule(raw: string)
    requires IsNumeric(Trim(raw)) && InIntRange(Trim(raw))
    ensures GetValue(raw) == if '.' in Trim(raw) then Float(Trim(raw)) else Int(IntCast(Trim(raw)))
  {
    NumericNotKeyword(Trim(raw));
  }

  /** The value is read from the trimmed input: surrounding whitespace never matters. */
  lemma GetValueTrims(raw: string)
    ensures GetValue(raw) == GetValue(Trim(raw))
  {
    TrimIdempotent(raw);
  }

  /** A double-quoted value loses its quotes and has `\"` and `\\` unescaped, in one pass. */
  lemma DoubleQuoted(raw: string)
    requires StartsWith(Trim(raw), '"') && EndsWith(Trim(raw), '"')
    ensures GetValue(raw) == Str(Unescape(Inner(Trim(raw))))
  {
    var v := Trim(raw);
    assert v[0] in v;
    QuoteNotKeyword(v, '"');
    assert DropLeadingWs(v) == v;
    assert Core(v)[0] == '"';
    QuoteNotNumeric(v, '"');
  }

  /** A single-quoted value loses its quotes and nothing else: keywords and numbers inside stay strings. */
  lemma SingleQuoted(raw: string)
    requires StartsWith(Trim(raw), '\'') && EndsWith(Trim(raw), '\'')
    ensures GetValue(raw) == Str(Inner(Trim(raw)))
  {
    var v := Trim(raw);
    assert v[0] in v;
    QuoteNotKeyword(v, '\'');
    assert DropLeadingWs(v) == v;
    assert Core(v)[0] == '\'';
    QuoteNotNumeric(v, '\'');
  }

  /** A value with quotes that do not wrap it is returned as the trimmed string, unchanged. */
  lemma QuotesInsideOnly(raw: string, q: char)
    requires q == '"' || q == '\''
    requires q in Trim(raw)
    requires !(StartsWith(Trim(raw), '"') && EndsWith(Trim(raw), '"'))
    requires !(StartsWith(Trim(raw), '\'') && EndsWith(Trim(raw), '\''))
    ensures GetValue(raw) == Str(Trim(raw))
  {
    var v := Trim(raw);
    QuoteNotKeyword(v, q);
    InCore(v, q);
    QuoteNotNumeric(v, q);
  }

  /** A plain decimal integer within range becomes that int. */
  lemma DecimalInteger(raw: string)
    requires IsDigits(Trim(raw)) && DecimalValue(Trim(raw)) <= PHP_INT_MAX
    ensures GetValue(raw) == Int(DecimalValue(Trim(raw)))
  {
    var v := Trim(raw);
    assert ToLower(v)[0] == v[0];
    assert "true"[0] == 't' && "false"[0] == 'f' && "null"[0] == 'n';
    DigitsCast(v);
    assert '.' !in v by {
      forall i | 0 <= i < |v| ensures v[i] != '.' {
      }
    }
  }

  // ---------------------------------------------------------------------
  // addChild
  // ---------------------------------------------------------------------

  /**
   * What `addChild($parent, $childs, $value)` leaves in `$parent`: the first
   * key (PHP's null key, `""`, when there is none) now holds the single-path
   * tree of the remaining keys with `$value` at its leaf.
   */
  function AddedChild(parent: Value, childs: seq<string>, value: Value): Value
    requires parent.Arr?
  {
    if childs == [] then Put(parent, StrKey(""), value)
    else Put(parent, NormKey(childs[0]), Nest(NormKeys(childs[1..]), value))
  }

  /**
   * `addChild`, which rewrites its by-reference array: `$parent[$key] = []`,
   * then either the value or a recursive call on that fresh child.
   */
  method AddChild(parent: Value, childs: seq<string>, value: Value) returns (updated: Value)
    requires parent.Arr?
    ensures updated == AddedChild(parent, childs, value)
    decreases |childs|
  {
    var key := if childs == [] then StrKey("") else NormKey(childs[0]);
    var rest := if childs == [] then [] else childs[1..];
    updated := Put(parent, key, Empty);
    if rest == [] {
      PutTwice(parent, key, Empty, value);
      updated := Put(updated, key, value);
      return;
    }
    assert updated.vals[key] == Empty;
    var child := AddChild(updated.vals[key], rest, value);
    AddedChildToEmpty(rest, value);
    PutTwice(parent, key, Empty, child);
    updated := Put(updated, key, child);
  }

  /**
   * addChild with at least one key: the first key holds a fresh tree whose
   * only path is the other keys, leading to the value; whatever the key
   * held before is gone, and every other key of the parent is untouched.
   */
  lemma AddedChildShape(parent: Value, childs: seq<string>, value: Value)
    requires parent.Arr? && childs != []
    ensures var r := AddedChild(parent, childs, value);
      && r.Arr?
      && r.vals[NormKey(childs[0])] == Nest(NormKeys(childs[1..]), value)
      && Lookup(r, NormKeys(childs)) == Some(value)
      && (forall k | k in parent.vals && k != NormKey(childs[0]) :: k in r.vals && r.vals[k] == parent.vals[k])
      && r.vals.Keys == parent.vals.Keys + {NormKey(childs[0])}
  {
    NestLookup(NormKeys(childs[1..]), value);
    assert NormKeys(childs)[1..] == NormKeys(childs[1..]);
  }

  /** Building from an empty parent, as every parser does, yields exactly the single-path tree. */
  lemma AddedChildToEmpty(childs: seq<string>, value: Value)
    requires childs != []
    ensures AddedChild(Empty, childs, value) == Nest(NormKeys(childs), value)
  {
    assert NormKeys(childs)[1..] == NormKeys(childs[1..]);
  }

  // ---------------------------------------------------------------------
  // ksortRecursive
  // ---------------------------------------------------------------------

  /** `ksortRecursive`'s result: every array's keys sorted, at every level; other values as they are. */
  function SortedTree(v: Value): (r: Value)
    ensures !v.Arr? ==> r == v
    ensures v.Arr? ==> r.Arr? && r.vals.Keys == v.vals.Keys && multiset(r.keys) == multiset(v.keys)
  {
    if v.Arr? then Arr(SortKeys(v.keys), map k | k in v.vals :: SortedTree(v.vals[k])) else v
  }

  /** Keys in ascending order at every level. */
  ghost predicate DeepSorted(v: Value) {
    v.Arr? ==> StrictlySorted(v.keys) && forall k | k in v.vals :: DeepSorted(v.vals[k])
  }

  /** The sorted tree of a genuine array is a genuine array, sorted at every level. */
  lemma {:induction false} SortedTreeSorted(v: Value)
    requires WF(v)
    ensures WF(SortedTree(v)) && DeepSorted(SortedTree(v))
  {
    if v.Arr? {
      var r := SortedTree(v);
      SortKeysSorted(v.keys);
      SortedDistinct(r.keys);
      assert forall k :: k in r.keys <==> k in multiset(r.keys);
      assert forall k :: k in v.keys <==> k in multiset(v.keys);
      assert (set k | k in r.keys) == r.vals.Keys;
      forall k | k in r.vals ensures WF(r.vals[k]) && DeepSorted(r.vals[k]) {
        SortedTreeSorted(v.vals[k]);
      }
    }
  }

  /** Sorting a tree that is already sorted changes nothing. */
  lemma {:induction false} SortedTreeOfSorted(v: Value)
    requires DeepSorted(v)
    ensures SortedTree(v) == v
  {
    if v.Arr? {
      SortKeysOfSorted(v.keys);
      forall k | k in v.vals ensures SortedTree(v.vals[k]) == v.vals[k] {
        SortedTreeOfSorted(v.vals[k]);
      }
      assert SortedTree(v).vals == v.vals;
    }
  }

  /** ksortRecursive is idempotent. */
  lemma SortedTreeIdempotent(v: Value)
    requires WF(v)
    ensures SortedTree(SortedTree(v)) == SortedTree(v)
  {
    SortedTreeSorted(v);
    SortedTreeOfSorted(SortedTree(v));
  }

  /** Sorting moves nothing: what a path reaches in the input, it reaches (sorted) in the output. */
  lemma {:induction false} SortedTreeLookup(v: Value, path: seq<Key>)
    ensures Lookup(SortedTree(v), path) == match Lookup(v, path) case Some(x) => Some(SortedTree(x)) case None => None
  {
    if path != [] && v.Arr? && path[0] in v.vals {
      SortedTreeLookup(v.vals[path[0]], path[1..]);
    }
  }

  /** An entry of the sorted tree is the sorted tree of the entry; the empty array sorts to itself. */
  lemma SortedTreeAt(v: Value, k: Key)
    requires v.Arr? && k in v.vals
    ensures SortedTree(v).vals[k] == SortedTree(v.vals[k])
    ensures v.vals[k] == Empty ==> SortedTree(v).vals[k] == Empty
  {
    assert SortedTree(Empty).vals == map[];
  }

  /**
   * `ksortRecursive`: `ksort` on a copy of the array, then a by-reference
   * pass over its values replacing each with its own sorted tree.
   */
  method KsortRecursive(v: Value) returns (r: Value)
    requires WF(v)
    ensures r == SortedTree(v)
    decreases v
  {
    if !v.Arr? {
      return v;
    }
    var keys := SortKeys(v.keys);
    KeysOfSorted(v, keys);
    ghost var target := map k | k in v.vals :: SortedTree(v.vals[k]);
    var vals := v.vals;
    var i := 0;
    while i < |keys|
      invariant 0 <= i <= |keys|
      invariant vals == Replaced(v.vals, target, keys[..i])
    {
      var k := keys[i];
      assert k in v.vals;
      var sorted := KsortRecursive(v.vals[k]);
      assert sorted == target[k];
      ReplacedStep(v.vals, target, keys, i);
      vals := vals[k := sorted];
      i := i + 1;
    }
    assert keys[..i] == keys;
    ReplacedAll(v.vals, target, keys);
    r := Arr(keys, vals);
  }

  /** The sorted keys of a genuine array are its domain. */
  lemma KeysOfSorted(v: Value, keys: seq<Key>)
    requires WF(v) && v.Arr? && keys == SortKeys(v.keys)
    ensures forall k :: k in keys <==> k in v.vals
  {
    assert forall k :: k in keys <==> k in multiset(keys);
    assert forall k :: k in v.keys <==> k in multiset(v.keys);
  }

  // ---------------------------------------------------------------------
  // checkConfig
  // ---------------------------------------------------------------------

  /** The class names that prefix the parsers' messages (`static::class`). */
  const EnvParserClass := "Framework\\Config\\Parsers\\EnvParser"
  const IniParserClass := "Framework\\Config\\Parsers\\IniParser"
  const XmlParserClass := "Framework\\Config\\Parsers\\XmlParser"
  const JsonParserClass := "Framework\\Config\\Parsers\\JsonParser"
  const YamlParserClass := "Framework\\Config\\Parsers\\YamlParser"
  const DatabaseParserClass := "Framework\\Config\\Parsers\\DatabaseParser"

  /** `checkConfig` of a file parser, up to its filesystem checks: the argument must be a string. */
  function CheckConfig(className: string, config: Value): (r: Outcome)
    ensures r.Fail? <==> !config.Str?
    ensures r.Fail? ==> r.message == className + " config must be a string"
  {
    if !config.Str? then Fail(className + " config must be a string") else Pass
  }
}

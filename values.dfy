/** Option, Result and Outcome: values, results and exceptions as plain data. */
module Wrappers {
  datatype Option<+T> = None | Some(value: T)

  /** An operation that either yields a value or raises an exception with a message. */
  datatype Result<+T> = Ok(value: T) | Err(message: string)

  /** An operation that yields nothing, or raises an exception with a message. */
  datatype Outcome = Pass | Fail(message: string)
}

/**
 * PHP values as the configuration library sees them: scalars and
 * insertion-ordered arrays keyed by `int|string`.
 */
module PhpValues {
  import opened Wrappers

  /** The bounds of a 64-bit PHP integer. */
  const PHP_INT_MAX: int := 0x7FFF_FFFF_FFFF_FFFF
  const PHP_INT_MIN: int := -0x8000_0000_0000_0000

  datatype Key = IntKey(i: int) | StrKey(s: string)

  /**
   * A PHP value. A float is kept as the numeric text it was read from,
   * without any float arithmetic. An array is its key order plus its entries.
   */
  datatype Value =
    | Null
    | Bool(b: bool)
    | Int(i: int)
    | Float(lexeme: string)
    | Str(s: string)
    | Arr(keys: seq<Key>, vals: map<Key, Value>)

  /** The empty array `[]`. */
  const Empty: Value := Arr([], map[])

  predicate Distinct<T(==)>(s: seq<T>) {
    forall i, j :: 0 <= i < j < |s| ==> s[i] != s[j]
  }

  /** A genuine PHP array at every level: each key once, and the key order lists exactly the entries. */
  ghost predicate WF(v: Value) {
    v.Arr? ==>
      && Distinct(v.keys)
      && (set k | k in v.keys) == v.vals.Keys
      && forall k | k in v.vals :: WF(v.vals[k])
  }

  /** The entries `foreach` visits, in key order: each key with its value. */
  function Entries(v: Value): (r: seq<(Key, Value)>)
    requires v.Arr? && WF(v)
    ensures |r| == |v.keys|
    ensures forall i | 0 <= i < |r| :: r[i].0 == v.keys[i] && r[i].0 in v.vals && r[i].1 == v.vals[v.keys[i]] && WF(r[i].1)
  {
    seq(|v.keys|, i requires 0 <= i < |v.keys| => (v.keys[i], v.vals[v.keys[i]]))
  }

  /** PHP's `empty()` on an array: no elements. */
  predicate IsEmptyArr(v: Value) {
    v.Arr? && v.vals == map[]
  }

  /** `$a[$k] = $v`: an existing key keeps its position, a new key is appended. */
  function Put(a: Value, k: Key, v: Value): (r: Value)
    requires a.Arr?
    ensures r.Arr? && r.vals == a.vals[k := v]
    ensures k in a.keys ==> r.keys == a.keys
    ensures k !in a.keys ==> r.keys == a.keys + [k]
  {
    Arr(if k in a.keys then a.keys else a.keys + [k], a.vals[k := v])
  }

  /** A second write to the same key replaces the first and leaves the key where the first put it. */
  lemma PutTwice(a: Value, k: Key, v: Value, w: Value)
    requires a.Arr?
    ensures Put(Put(a, k, v), k, w) == Put(a, k, w)
  {
  }

  lemma PutWF(a: Value, k: Key, v: Value)
    requires WF(a) && WF(v) && a.Arr?
    ensures WF(Put(a, k, v))
  {
    var r := Put(a, k, v);
    assert (set x | x in r.keys) == r.vals.Keys;
  }

  /** The array that `$a[$k] = $v` for each pair in turn builds from `[]`. */
  function FromPairs(pairs: seq<(Key, Value)>): (r: Value)
    ensures r.Arr?
  {
    if pairs == [] then Empty else Put(FromPairs(pairs[..|pairs| - 1]), pairs[|pairs| - 1].0, pairs[|pairs| - 1].1)
  }

  /** The keys of the pairs, in order. */
  predicate KeysAre(pairs: seq<(Key, Value)>, keys: seq<Key>) {
    |keys| == |pairs| && forall i | 0 <= i < |pairs| :: keys[i] == pairs[i].0
  }

  /** Assigning distinct keys one after another lists them in the order assigned. */
  lemma {:induction false} FromPairsKeys(pairs: seq<(Key, Value)>)
    requires forall i, j | 0 <= i < j < |pairs| :: pairs[i].0 != pairs[j].0
    ensures KeysAre(pairs, FromPairs(pairs).keys)
  {
    if pairs != [] {
      var prefix := pairs[..|pairs| - 1];
      var last := pairs[|pairs| - 1];
      FromPairsKeys(prefix);
      var keys := FromPairs(prefix).keys;
      assert last.0 !in keys by {
        forall i | 0 <= i < |keys| ensures keys[i] != last.0 {
          assert keys[i] == pairs[i].0;
        }
      }
    }
  }

  /** Assigning distinct keys one after another leaves each holding the value assigned to it. */
  lemma {:induction false} FromPairsAt(pairs: seq<(Key, Value)>, i: nat)
    requires forall a, b | 0 <= a < b < |pairs| :: pairs[a].0 != pairs[b].0
    requires i < |pairs|
    ensures pairs[i].0 in FromPairs(pairs).vals && FromPairs(pairs).vals[pairs[i].0] == pairs[i].1
  {
    if i < |pairs| - 1 {
      var prefix := pairs[..|pairs| - 1];
      assert prefix[i] == pairs[i];
      FromPairsAt(prefix, i);
    }
  }

  /**
   * The values of `orig` rewritten key after key along `ks` with those of
   * `target`, as a by-reference `foreach` over an array's values does.
   */
  function Replaced(orig: map<Key, Value>, target: map<Key, Value>, ks: seq<Key>): (r: map<Key, Value>) {
    if ks == [] then orig
    else
      var last := ks[|ks| - 1];
      var before := Replaced(orig, target, ks[..|ks| - 1]);
      if last in target then before[last := target[last]] else before
  }

  /** Rewriting one key more. */
  lemma ReplacedStep(orig: map<Key, Value>, target: map<Key, Value>, ks: seq<Key>, i: nat)
    requires i < |ks| && ks[i] in target
    ensures Replaced(orig, target, ks[..i + 1]) == Replaced(orig, target, ks[..i])[ks[i] := target[ks[i]]]
  {
    assert ks[..i + 1][..i] == ks[..i];
  }

  /** A key rewritten along the way holds its target value, any other its original one. */
  lemma {:induction false} ReplacedAt(orig: map<Key, Value>, target: map<Key, Value>, ks: seq<Key>, k: Key)
    requires orig.Keys == target.Keys
    ensures Replaced(orig, target, ks).Keys == orig.Keys
    ensures k in orig ==> Replaced(orig, target, ks)[k] == if k in ks then target[k] else orig[k]
  {
    if ks != [] {
      var prefix := ks[..|ks| - 1];
      ReplacedAt(orig, target, prefix, k);
      assert ks == prefix + [ks[|ks| - 1]];
    }
  }

  /** Rewriting every key of the array yields the target values. */
  lemma ReplacedAll(orig: map<Key, Value>, target: map<Key, Value>, ks: seq<Key>)
    requires orig.Keys == target.Keys
    requires forall k | k in orig :: k in ks
    ensures Replaced(orig, target, ks) == target
  {
    var r := Replaced(orig, target, ks);
    ReplacedAt(orig, target, ks, IntKey(0));
    forall k | k in orig ensures r[k] == target[k] {
      ReplacedAt(orig, target, ks, k);
    }
  }

  /** The single-path tree whose leaf at `path` is `v`: `{p0: {p1: ... v}}`. */
  function Nest(path: seq<Key>, v: Value): (r: Value)
    ensures path != [] ==> r.Arr? && r.keys == [path[0]] && r.vals.Keys == {path[0]}
    ensures path == [] ==> r == v
  {
    if path == [] then v else Arr([path[0]], map[path[0] := Nest(path[1..], v)])
  }

  /** The value at `path` inside `v`, if every step is an array holding the next key. */
  function Lookup(v: Value, path: seq<Key>): Option<Value> {
    if path == [] then Some(v)
    else if v.Arr? && path[0] in v.vals then Lookup(v.vals[path[0]], path[1..])
    else None
  }

  lemma {:induction false} NestWF(path: seq<Key>, v: Value)
    requires WF(v)
    ensures WF(Nest(path, v))
  {
    if path != [] {
      NestWF(path[1..], v);
      var r := Nest(path, v);
      assert (set k | k in r.keys) == {path[0]};
    }
  }

  /** Nest builds exactly one path: its leaf holds `v`. */
  lemma {:induction false} NestLookup(path: seq<Key>, v: Value)
    ensures Lookup(Nest(path, v), path) == Some(v)
  {
    if path != [] {
      NestLookup(path[1..], v);
    }
  }

  /** The decimal value of a string of ASCII digits. */
  function DecimalValue(s: string): nat
    requires forall i | 0 <= i < |s| :: '0' <= s[i] <= '9'
  {
    if s == [] then 0 else 10 * DecimalValue(s[..|s| - 1]) + (s[|s| - 1] as int - '0' as int)
  }

  predicate IsDigits(s: string) {
    |s| > 0 && forall i | 0 <= i < |s| :: '0' <= s[i] <= '9'
  }

  /** Digits with no leading zero, other than "0" itself. */
  predicate IsCanonicalNat(s: string) {
    IsDigits(s) && (s[0] != '0' || |s| == 1)
  }

  /**
   * A canonical decimal integer within the 64-bit range: digits without a
   * leading zero, optionally after a `-`, and never `-0`.
   */
  predicate IsIntKeyString(s: string) {
    || (IsCanonicalNat(s) && DecimalValue(s) <= PHP_INT_MAX)
    || (|s| >= 2 && s[0] == '-' && s[1] != '0' && IsCanonicalNat(s[1..]) && -(DecimalValue(s[1..]) as int) >= PHP_INT_MIN)
  }

  /**
   * PHP's key normalisation: a string that is a canonical decimal integer
   * within the 64-bit range becomes an integer key; every other string stays a string key.
   */
  function NormKey(s: string): (k: Key)
    ensures k.IntKey? <==> IsIntKeyString(s)
    ensures k.IntKey? ==> PHP_INT_MIN <= k.i <= PHP_INT_MAX
    ensures k.StrKey? ==> k.s == s
  {
    if IsCanonicalNat(s) && DecimalValue(s) <= PHP_INT_MAX then IntKey(DecimalValue(s))
    else if |s| >= 2 && s[0] == '-' && s[1] != '0' && IsCanonicalNat(s[1..]) && -(DecimalValue(s[1..]) as int) >= PHP_INT_MIN
    then IntKey(-(DecimalValue(s[1..]) as int))
    else StrKey(s)
  }

  /** A canonical decimal string within range becomes the integer key of its value. */
  lemma CanonicalBecomesInt(s: string)
    requires IsCanonicalNat(s) && DecimalValue(s) <= PHP_INT_MAX
    ensures NormKey(s) == IntKey(DecimalValue(s))
    ensures NormKey(['-'] + s) == if s == "0" then StrKey(['-'] + s) else IntKey(-(DecimalValue(s) as int))
  {
    assert (['-'] + s)[1..] == s;
  }

  /** A string holding any byte other than a digit, save a leading `-`, stays a string key. */
  lemma NonDigitStaysString(s: string, j: nat)
    requires j < |s| && !('0' <= s[j] <= '9') && !(j == 0 && s[j] == '-')
    ensures NormKey(s) == StrKey(s)
  {
    if |s| >= 2 && s[0] == '-' {
      assert s[1..][j - 1] == s[j];
    }
  }

  /** Digits with a leading zero, such as `"07"`, stay a string key. */
  lemma LeadingZeroStaysString(s: string)
    requires |s| >= 2 && s[0] == '0'
    ensures NormKey(s) == StrKey(s)
  {
  }

  function NormKeys(ss: seq<string>): (ks: seq<Key>)
    ensures |ks| == |ss|
    ensures forall i | 0 <= i < |ss| :: ks[i] == NormKey(ss[i])
  {
    if ss == [] then [] else [NormKey(ss[0])] + NormKeys(ss[1..])
  }

  /** The type name PHP prints in "must be of type ..., X given" messages. */
  function TypeName(v: Value): string {
    match v
    case Null => "null"
    case Bool(_) => "bool"
    case Int(_) => "int"
    case Float(_) => "float"
    case Str(_) => "string"
    case Arr(_, _) => "array"
  }
}

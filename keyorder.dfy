/**
 * The key order `ksort` puts arrays in, and the sort itself.
 * Integer keys come first in numeric order, then string keys in byte
 * order (`strcmp`).
 */
module KeyOrder {
  import opened PhpValues

  /** Byte-wise lexicographic order, as `strcmp` compares. */
  predicate StrLess(a: string, b: string)
    decreases |a|
  {
    if |a| == 0 then |b| > 0
    else |b| > 0 && (a[0] < b[0] || (a[0] == b[0] && StrLess(a[1..], b[1..])))
  }

  predicate KeyLess(a: Key, b: Key) {
    match (a, b)
    case (IntKey(x), IntKey(y)) => x < y
    case (IntKey(_), StrKey(_)) => true
    case (StrKey(_), IntKey(_)) => false
    case (StrKey(x), StrKey(y)) => StrLess(x, y)
  }

  lemma {:induction false} StrLessIrreflexive(a: string)
    ensures !StrLess(a, a)
  {
    if |a| > 0 {
      StrLessIrreflexive(a[1..]);
    }
  }

  lemma {:induction false} StrLessTransitive(a: string, b: string, c: string)
    requires StrLess(a, b) && StrLess(b, c)
    ensures StrLess(a, c)
    decreases |a|
  {
    if |a| > 0 && a[0] == b[0] && b[0] == c[0] {
      StrLessTransitive(a[1..], b[1..], c[1..]);
    }
  }

  lemma {:induction false} StrLessTotal(a: string, b: string)
    requires a != b
    ensures StrLess(a, b) || StrLess(b, a)
    decreases |a|
  {
    if |a| > 0 && |b| > 0 && a[0] == b[0] {
      assert a == [a[0]] + a[1..] && b == [b[0]] + b[1..];
      StrLessTotal(a[1..], b[1..]);
    }
  }

  /** KeyLess is a strict total order. */
  lemma KeyLessIrreflexive(a: Key)
    ensures !KeyLess(a, a)
  {
    if a.StrKey? {
      StrLessIrreflexive(a.s);
    }
  }

  lemma KeyLessTransitive(a: Key, b: Key, c: Key)
    requires KeyLess(a, b) && KeyLess(b, c)
    ensures KeyLess(a, c)
  {
    if a.StrKey? {
      StrLessTransitive(a.s, b.s, c.s);
    }
  }

  lemma KeyLessTotal(a: Key, b: Key)
    requires a != b
    ensures KeyLess(a, b) || KeyLess(b, a)
  {
    if a.StrKey? && b.StrKey? {
      StrLessTotal(a.s, b.s);
    }
  }

  /** Keys in strictly ascending order. */
  predicate StrictlySorted(s: seq<Key>) {
    forall i, j | 0 <= i < j < |s| :: KeyLess(s[i], s[j])
  }

  /** Inserts `k` before the first key that is not below it. */
  function Insert(k: Key, s: seq<Key>): (r: seq<Key>)
    ensures multiset(r) == multiset(s) + multiset{k}
  {
    if s == [] then [k]
    else if KeyLess(k, s[0]) then [k] + s
    else
      assert s == [s[0]] + s[1..];
      [s[0]] + Insert(k, s[1..])
  }

  lemma {:induction false} InsertSorted(k: Key, s: seq<Key>)
    requires StrictlySorted(s) && k !in s
    ensures StrictlySorted(Insert(k, s))
  {
    if s != [] && !KeyLess(k, s[0]) {
      assert k != s[0];
      KeyLessTotal(k, s[0]);
      InsertSorted(k, s[1..]);
      var r := Insert(k, s);
      forall j | 0 < j < |r| ensures KeyLess(r[0], r[j]) {
        assert r[j] in multiset(Insert(k, s[1..]));
        assert r[j] in multiset(s[1..]) + multiset{k};
        if r[j] != k {
          var m :| 0 <= m < |s[1..]| && s[1..][m] == r[j];
          assert s[m + 1] == r[j];
        }
      }
    } else if s != [] {
      var r := Insert(k, s);
      forall j | 1 < j < |r| ensures KeyLess(r[0], r[j]) {
        KeyLessTransitive(k, s[0], s[j - 1]);
      }
    }
  }

  lemma InsertBelowAll(k: Key, s: seq<Key>)
    requires forall j | 0 <= j < |s| :: KeyLess(k, s[j])
    ensures Insert(k, s) == [k] + s
  {
  }

  /** `ksort` on the key order alone: an insertion sort. */
  function SortKeys(s: seq<Key>): (r: seq<Key>)
    ensures multiset(r) == multiset(s)
    ensures |r| == |s|
  {
    if s == [] then []
    else
      assert s == [s[0]] + s[1..];
      Insert(s[0], SortKeys(s[1..]))
  }

  lemma DistinctTail(s: seq<Key>)
    requires Distinct(s) && s != []
    ensures Distinct(s[1..]) && s[0] !in s[1..]
  {
    forall j | 0 <= j < |s[1..]| ensures s[1..][j] != s[0] {
      assert s[1..][j] == s[j + 1];
    }
    forall i, j | 0 <= i < j < |s[1..]| ensures s[1..][i] != s[1..][j] {
      assert s[1..][i] == s[i + 1] && s[1..][j] == s[j + 1];
    }
  }

  /** Sorting distinct keys puts them in strictly ascending order. */
  lemma {:induction false} SortKeysSorted(s: seq<Key>)
    requires Distinct(s)
    ensures StrictlySorted(SortKeys(s))
  {
    if s != [] {
      DistinctTail(s);
      SortKeysSorted(s[1..]);
      assert s[0] !in multiset(s[1..]);
      assert s[0] !in SortKeys(s[1..]);
      InsertSorted(s[0], SortKeys(s[1..]));
    }
  }

  /** Sorting keys that are already in order leaves them as they are. */
  lemma {:induction false} SortKeysOfSorted(s: seq<Key>)
    requires StrictlySorted(s)
    ensures SortKeys(s) == s
  {
    if s != [] {
      SortKeysOfSorted(s[1..]);
      InsertBelowAll(s[0], s[1..]);
      assert s == [s[0]] + s[1..];
    }
  }

  lemma SortedDistinct(s: seq<Key>)
    requires StrictlySorted(s)
    ensures Distinct(s)
  {
    forall i, j | 0 <= i < j < |s| ensures s[i] != s[j] {
      KeyLessIrreflexive(s[i]);
    }
  }
}

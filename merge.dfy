/**
 * PHP's `array_replace_recursive`, the merge every part of the library uses
 * when two configuration fragments combine.
 */
module Merge {
  import opened Wrappers
  import opened PhpValues

  /** The keys of `over`, in its order, that `base` does not hold: the ones a merge appends. */
  function NewKeys(base: seq<Key>, over: seq<Key>): (r: seq<Key>)
    ensures forall k :: k in r <==> k in over && k !in base
    ensures Distinct(over) ==> Distinct(r)
  {
    if over == [] then []
    else
      var rest := NewKeys(base, over[1..]);
      assert Distinct(over) ==> Distinct(over[1..]) by {
        if Distinct(over) {
          forall i, j | 0 <= i < j < |over[1..]| ensures over[1..][i] != over[1..][j] {
            assert over[1..][i] == over[i + 1] && over[1..][j] == over[j + 1];
          }
        }
      }
      if over[0] in base then rest
      else
        assert Distinct(over) ==> over[0] !in over[1..] by {
          if Distinct(over) {
            forall j | 0 <= j < |over[1..]| ensures over[1..][j] != over[0] {
              assert over[1..][j] == over[j + 1];
            }
          }
        }
        [over[0]] + rest
  }

  /**
   * `array_replace_recursive(base, overlay)`: for each key of the overlay, two
   * arrays merge recursively and anything else in the overlay replaces what
   * the base holds. Keys only in the base keep their place; keys new to the
   * base are appended in the overlay's order.
   */
  function ReplaceRecursive(base: Value, overlay: Value): (r: Value)
    decreases overlay
    ensures r.Arr? <==> overlay.Arr?
    ensures base.Arr? && overlay.Arr? ==>
      && r.vals.Keys == base.vals.Keys + overlay.vals.Keys
      && |base.keys| <= |r.keys| && r.keys[..|base.keys|] == base.keys
  {
    if base.Arr? && overlay.Arr? then
      var keys := base.keys + NewKeys(base.keys, overlay.keys);
      assert keys[..|base.keys|] == base.keys;
      Arr(keys,
          map k | k in base.vals.Keys + overlay.vals.Keys ::
            if k in overlay.vals then
              (if k in base.vals then ReplaceRecursive(base.vals[k], overlay.vals[k]) else overlay.vals[k])
            else base.vals[k])
    else overlay
  }

  /** Where the overlay holds a key and the two sides are not both arrays there, the overlay's value wins. */
  lemma OverlayWins(base: Value, overlay: Value, k: Key)
    requires base.Arr? && overlay.Arr? && k in overlay.vals
    requires !(k in base.vals && base.vals[k].Arr? && overlay.vals[k].Arr?)
    ensures ReplaceRecursive(base, overlay).vals[k] == overlay.vals[k]
  {
  }

  /** Where both sides hold arrays under one key, the result holds their recursive merge. */
  lemma ArraysRecurse(base: Value, overlay: Value, k: Key)
    requires base.Arr? && overlay.Arr? && k in overlay.vals && k in base.vals
    requires base.vals[k].Arr? && overlay.vals[k].Arr?
    ensures ReplaceRecursive(base, overlay).vals[k] == ReplaceRecursive(base.vals[k], overlay.vals[k])
  {
  }

  /** A key the overlay does not hold keeps the base's value. */
  lemma BaseOnlyKept(base: Value, overlay: Value, k: Key)
    requires base.Arr? && overlay.Arr? && k in base.vals && k !in overlay.vals
    ensures ReplaceRecursive(base, overlay).vals[k] == base.vals[k]
  {
  }

  /** The base's keys keep their order at the front; the overlay's new keys follow in overlay order. */
  lemma MergedKeyOrder(base: Value, overlay: Value)
    requires base.Arr? && overlay.Arr?
    ensures ReplaceRecursive(base, overlay).keys == base.keys + NewKeys(base.keys, overlay.keys)
  {
  }

  /** Merging a one-key array appends its key unless the base already has it. */
  lemma SingleKeyMerged(base: Value, overlay: Value, k: Key)
    requires base.Arr? && overlay.Arr? && overlay.keys == [k]
    ensures ReplaceRecursive(base, overlay).keys == if k in base.keys then base.keys else base.keys + [k]
  {
    MergedKeyOrder(base, overlay);
    if k in base.keys {
      assert NewKeys(base.keys, [k]) == [];
    } else {
      assert NewKeys(base.keys, [k]) == [k];
    }
  }

  /** Merging an empty array into an array leaves it unchanged. */
  lemma EmptyOverlay(base: Value)
    requires base.Arr?
    ensures ReplaceRecursive(base, Empty) == base
  {
    var r := ReplaceRecursive(base, Empty);
    assert r.keys == base.keys;
    assert r.vals == base.vals;
  }

  lemma NewKeysOfContained(base: seq<Key>, over: seq<Key>)
    requires forall k | k in over :: k in base
    ensures NewKeys(base, over) == []
  {
    if over != [] {
      assert over[0] in over;
      NewKeysOfContained(base, over[1..]);
    }
  }

  /** Self-merge identity: a value merged with itself is unchanged. */
  lemma {:induction false} SelfMerge(x: Value)
    ensures ReplaceRecursive(x, x) == x
    decreases x
  {
    if x.Arr? {
      var r := ReplaceRecursive(x, x);
      NewKeysOfContained(x.keys, x.keys);
      assert r.keys == x.keys;
      forall k | k in x.vals ensures r.vals[k] == x.vals[k] {
        SelfMerge(x.vals[k]);
      }
      assert r.vals == x.vals;
    }
  }

  /** Idempotence: merging the same overlay a second time changes nothing. */
  lemma {:induction false} Idempotent(a: Value, b: Value)
    ensures ReplaceRecursive(ReplaceRecursive(a, b), b) == ReplaceRecursive(a, b)
    decreases b
  {
    var m := ReplaceRecursive(a, b);
    if a.Arr? && b.Arr? {
      var r := ReplaceRecursive(m, b);
      MergedKeyOrder(a, b);
      MergedKeyOrder(m, b);
      assert forall k | k in b.keys :: k in m.keys;
      NewKeysOfContained(m.keys, b.keys);
      assert r.keys == m.keys;
      forall k | k in r.vals ensures r.vals[k] == m.vals[k] {
        if k in b.vals {
          if k in a.vals {
            Idempotent(a.vals[k], b.vals[k]);
          } else {
            SelfMerge(b.vals[k]);
          }
        }
      }
      assert r.vals == m.vals;
    } else {
      SelfMerge(b);
    }
  }

  /** Merging two genuine PHP arrays yields one. */
  lemma {:induction false} PreservesWF(a: Value, b: Value)
    requires WF(a) && WF(b)
    ensures WF(ReplaceRecursive(a, b))
    decreases b
  {
    if a.Arr? && b.Arr? {
      var r := ReplaceRecursive(a, b);
      var nk := NewKeys(a.keys, b.keys);
      MergedKeyOrder(a, b);
      forall i, j | 0 <= i < j < |r.keys| ensures r.keys[i] != r.keys[j] {
        if j < |a.keys| {
        } else if i >= |a.keys| {
          assert r.keys[i] == nk[i - |a.keys|] && r.keys[j] == nk[j - |a.keys|];
        } else {
          assert r.keys[i] in a.keys;
          assert r.keys[j] == nk[j - |a.keys|];
          assert r.keys[j] in nk;
        }
      }
      assert (set k | k in r.keys) == r.vals.Keys;
      forall k | k in r.vals ensures WF(r.vals[k]) {
        if k in b.vals && k in a.vals {
          PreservesWF(a.vals[k], b.vals[k]);
        }
      }
    }
  }

  /** Every leaf of the overlay (a non-array at the end of a path) is present, unchanged, in the merge. */
  lemma {:induction false} OverlayLeafHolds(a: Value, b: Value, path: seq<Key>)
    requires Lookup(b, path).Some? && !Lookup(b, path).value.Arr?
    ensures Lookup(ReplaceRecursive(a, b), path) == Lookup(b, path)
    decreases path
  {
    if path != [] && a.Arr? && b.Arr? {
      var k := path[0];
      if k in a.vals {
        OverlayLeafHolds(a.vals[k], b.vals[k], path[1..]);
      }
    }
  }

  /** Two paths that part ways at some step before either ends. */
  predicate Diverge(p: seq<Key>, q: seq<Key>) {
    |p| > 0 && |q| > 0 && (p[0] != q[0] || Diverge(p[1..], q[1..]))
  }

  /** Merging a single-path tree leaves alone every path of the base that parts from it. */
  lemma {:induction false} DivergentPathKept(a: Value, q: seq<Key>, v: Value, p: seq<Key>)
    requires Diverge(p, q) && Lookup(a, p).Some?
    ensures Lookup(ReplaceRecursive(a, Nest(q, v)), p) == Lookup(a, p)
    decreases q
  {
    var n := Nest(q, v);
    assert n.Arr?;
    if p[0] == q[0] {
      var sub := a.vals[p[0]];
      assert Diverge(p[1..], q[1..]);
      DivergentPathKept(sub, q[1..], v, p[1..]);
      assert n.vals[q[0]] == Nest(q[1..], v);
    }
  }

  /** Trees merged one after another into an initially empty array, each over all before it. */
  function MergeAll(trees: seq<Value>): (r: Value)
    ensures trees == [] ==> r == Empty
    ensures trees != [] ==> r.Arr? == trees[|trees| - 1].Arr?
  {
    if trees == [] then Empty else ReplaceRecursive(MergeAll(trees[..|trees| - 1]), trees[|trees| - 1])
  }

  lemma MergeAllSnoc(trees: seq<Value>, t: Value)
    ensures MergeAll(trees + [t]) == ReplaceRecursive(MergeAll(trees), t)
  {
    assert (trees + [t])[..|trees|] == trees;
  }

  /** Merging genuine PHP arrays one after another yields one. */
  lemma {:induction false} MergeAllWF(trees: seq<Value>)
    requires forall i | 0 <= i < |trees| :: WF(trees[i])
    ensures WF(MergeAll(trees))
  {
    if trees != [] {
      MergeAllWF(trees[..|trees| - 1]);
      PreservesWF(MergeAll(trees[..|trees| - 1]), trees[|trees| - 1]);
    }
  }

  /** The last tree's leaf is what its path reaches in the merge, whatever came before. */
  lemma LastLeafWins(trees: seq<Value>, path: seq<Key>, v: Value)
    requires !v.Arr?
    ensures Lookup(MergeAll(trees + [Nest(path, v)]), path) == Some(v)
  {
    MergeAllSnoc(trees, Nest(path, v));
    NestLookup(path, v);
    OverlayLeafHolds(MergeAll(trees), Nest(path, v), path);
  }

  /** A later single-path tree leaves alone every earlier path that parts from its own. */
  lemma DivergentKept(trees: seq<Value>, q: seq<Key>, v: Value, p: seq<Key>)
    requires Diverge(p, q) && Lookup(MergeAll(trees), p).Some?
    ensures Lookup(MergeAll(trees + [Nest(q, v)]), p) == Lookup(MergeAll(trees), p)
  {
    MergeAllSnoc(trees, Nest(q, v));
    DivergentPathKept(MergeAll(trees), q, v, p);
  }
}

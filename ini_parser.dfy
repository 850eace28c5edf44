/**
 * `IniParser::parse` (src/Parsers/IniParser.php) after `parse_ini_file`:
 * the sections and their dotted keys folded into nested arrays, then the
 * whole tree sorted by key. The typed values the INI scanner produced are
 * the input, and they are stored as they are.
 */
module IniParser {
  import opened Wrappers
  import opened PhpValues
  import opened PhpStrings
  import opened Merge
  import opened KeyOrder
  import opened Parser

  /** The warning `foreach` raises on a non-array, turned into an exception by `parseOrThrow`. */
  function ForeachError(v: Value): string {
    IniParserClass + ": foreach() argument must be of type array|object, " + TypeName(v) + " given"
  }

  /** A warning `parse_ini_file` raises, such as a syntax error, turned into an exception by `parseOrThrow`. */
  function ScannerError(warning: string): string {
    IniParserClass + ": " + warning
  }

  /** The TypeError `explode` raises under strict types when an entry's key is an integer. */
  const IntKeyError := "explode(): Argument #2 ($string) must be of type string, int given"

  /** What the entry under `key` contributes to its section: its value at the end of the dotted key's path. */
  function EntryTree(key: string, value: Value): (r: Value)
    ensures r == Nest(NormKeys(Split(key, '.')), value) && r.Arr?
  {
    AddedChildToEmpty(Split(key, '.'), value);
    AddedChild(Empty, Split(key, '.'), value)
  }

  /**
   * The trees of a section's entries, in order; the first entry with an
   * integer key stops it.
   */
  function EntryTrees(entries: seq<(Key, Value)>): (r: Result<seq<Value>>)
    ensures r.Ok? ==> |r.value| == |entries|
    ensures r.Err? ==> r.message == IntKeyError
  {
    if entries == [] then Ok([])
    else
      var e := entries[|entries| - 1];
      match EntryTrees(entries[..|entries| - 1])
      case Err(m) => Err(m)
      case Ok(trees) =>
        if e.0.IntKey? then Err(IntKeyError)
        else Ok(trees + [EntryTree(e.0.s, e.1)])
  }

  /** A section's array: each entry's tree merged over those before it. */
  function SectionTree(values: Value): (r: Result<Value>)
    requires values.Arr? && WF(values)
    ensures r.Err? ==> r.message == IntKeyError
  {
    match EntryTrees(Entries(values))
    case Err(m) => Err(m)
    case Ok(trees) => Ok(MergeAll(trees))
  }

  /** The sections folded in order: each section's key holding its array; a non-array section stops it. */
  function SectionsTree(sections: seq<(Key, Value)>): (r: Result<Value>)
    requires forall i | 0 <= i < |sections| :: WF(sections[i].1)
    ensures r.Ok? ==> r.value.Arr?
  {
    if sections == [] then Ok(Empty)
    else
      var s := sections[|sections| - 1];
      match SectionsTree(sections[..|sections| - 1])
      case Err(m) => Err(m)
      case Ok(data) =>
        if !s.1.Arr? then Err(ForeachError(s.1))
        else
          match SectionTree(s.1)
          case Err(m) => Err(m)
          case Ok(tree) => Ok(Put(data, s.0, tree))
  }

  /**
   * What `parse` returns for the scanner's output, which is either the
   * sections array or the warning `parse_ini_file` raised instead of
   * returning `false`: the folded sections sorted by key at every level, or
   * the warning as the parser's exception.
   */
  function Parsed(scanned: Result<Value>): (r: Result<Value>)
    requires scanned.Ok? ==> scanned.value.Arr? && WF(scanned.value)
    ensures scanned.Err? ==> r == Err(ScannerError(scanned.message))
    ensures r.Ok? ==> scanned.Ok? && r.value.Arr?
  {
    match scanned
    case Err(warning) => Err(ScannerError(warning))
    case Ok(parsed) =>
      match SectionsTree(Entries(parsed))
      case Err(m) => Err(m)
      case Ok(data) => Ok(SortedTree(data))
  }

  /** The two loops of `parse`, then `ksortRecursive`. */
  method Parse(scanned: Result<Value>) returns (r: Result<Value>)
    requires scanned.Ok? ==> scanned.value.Arr? && WF(scanned.value)
    ensures r == Parsed(scanned)
  {
    if scanned.Err? {
      return Err(ScannerError(scanned.message));
    }
    var parsed := scanned.value;
    var sections := Entries(parsed);
    var data := Empty;
    var i := 0;
    while i < |parsed.keys|
      invariant 0 <= i <= |parsed.keys|
      invariant SectionsTree(sections[..i]) == Ok(data)
    {
      var section := parsed.keys[i];
      var values := parsed.vals[section];
      SectionStep(sections, i);
      if !values.Arr? {
        SectionsStayFailed(sections, i + 1);
        return Err(ForeachError(values));
      }
      var tree := ParseSection(values);
      if tree.Err? {
        SectionsStayFailed(sections, i + 1);
        return Err(tree.message);
      }
      data := Put(data, section, tree.value);
      i := i + 1;
    }
    assert sections[..i] == sections;
    SectionsTreeWF(sections);
    var sorted := KsortRecursive(data);
    r := Ok(sorted);
  }

  /**
   * The inner loop of `parse`: `$data[$section]` starts as `[]` and every
   * entry's tree from `addChild` is merged into it.
   */
  method ParseSection(values: Value) returns (r: Result<Value>)
    requires values.Arr? && WF(values)
    ensures r == SectionTree(values)
  {
    var entries := Entries(values);
    var tree := Empty;
    var j := 0;
    while j < |values.keys|
      invariant 0 <= j <= |values.keys|
      invariant EntryTrees(entries[..j]).Ok?
      invariant tree == MergeAll(EntryTrees(entries[..j]).value)
    {
      var key := values.keys[j];
      EntryStep(entries, j);
      if key.IntKey? {
        EntriesStayFailed(entries, j + 1);
        return Err(IntKeyError);
      }
      var parent := AddChild(Empty, Split(key.s, '.'), values.vals[key]);
      AddedChildToEmpty(Split(key.s, '.'), values.vals[key]);
      MergeAllSnoc(EntryTrees(entries[..j]).value, parent);
      tree := ReplaceRecursive(tree, parent);
      j := j + 1;
    }
    assert entries[..j] == entries;
    r := Ok(tree);
  }

  /** One step of the entry fold: entry `j` either stops it or adds its tree. */
  lemma EntryStep(entries: seq<(Key, Value)>, j: nat)
    requires j < |entries| && EntryTrees(entries[..j]).Ok?
    ensures entries[j].0.IntKey? ==> EntryTrees(entries[..j + 1]) == Err(IntKeyError)
    ensures entries[j].0.StrKey? ==>
      EntryTrees(entries[..j + 1]) == Ok(EntryTrees(entries[..j]).value + [EntryTree(entries[j].0.s, entries[j].1)])
  {
    assert entries[..j + 1][..j] == entries[..j];
  }

  /** One step of the section fold: section `i` either stops it or stores its array under its key. */
  lemma SectionStep(sections: seq<(Key, Value)>, i: nat)
    requires forall k | 0 <= k < |sections| :: WF(sections[k].1)
    requires i < |sections| && SectionsTree(sections[..i]).Ok?
    ensures !sections[i].1.Arr? ==> SectionsTree(sections[..i + 1]) == Err(ForeachError(sections[i].1))
    ensures sections[i].1.Arr? && SectionTree(sections[i].1).Err? ==>
      SectionsTree(sections[..i + 1]) == Err(SectionTree(sections[i].1).message)
    ensures sections[i].1.Arr? && SectionTree(sections[i].1).Ok? ==>
      SectionsTree(sections[..i + 1]) == Ok(Put(SectionsTree(sections[..i]).value, sections[i].0, SectionTree(sections[i].1).value))
  {
    assert sections[..i + 1][..i] == sections[..i];
  }

  /** Once an entry fails, the section stays failed whatever follows. */
  lemma {:induction false} EntriesStayFailed(entries: seq<(Key, Value)>, n: nat)
    requires n <= |entries| && EntryTrees(entries[..n]).Err?
    ensures EntryTrees(entries) == EntryTrees(entries[..n])
    decreases |entries|
  {
    if n < |entries| {
      var prefix := entries[..|entries| - 1];
      assert prefix[..n] == entries[..n];
      EntriesStayFailed(prefix, n);
    } else {
      assert entries[..n] == entries;
    }
  }

  /** Once a section fails, the whole fold fails with its message. */
  lemma {:induction false} SectionsStayFailed(sections: seq<(Key, Value)>, n: nat)
    requires forall i | 0 <= i < |sections| :: WF(sections[i].1)
    requires n <= |sections| && SectionsTree(sections[..n]).Err?
    ensures SectionsTree(sections) == SectionsTree(sections[..n])
    decreases |sections|
  {
    if n < |sections| {
      var prefix := sections[..|sections| - 1];
      assert prefix[..n] == sections[..n];
      SectionsStayFailed(prefix, n);
    } else {
      assert sections[..n] == sections;
    }
  }

  /** A section's entries merge into a genuine PHP array. */
  lemma {:induction false} MergedEntriesWF(entries: seq<(Key, Value)>)
    requires forall i | 0 <= i < |entries| :: WF(entries[i].1)
    requires EntryTrees(entries).Ok?
    ensures WF(MergeAll(EntryTrees(entries).value))
  {
    if entries != [] {
      var prefix := entries[..|entries| - 1];
      var e := entries[|entries| - 1];
      MergedEntriesWF(prefix);
      var trees := EntryTrees(prefix).value;
      var tree := EntryTree(e.0.s, e.1);
      assert EntryTrees(entries).value == trees + [tree];
      MergeAllSnoc(trees, tree);
      NestWF(NormKeys(Split(e.0.s, '.')), e.1);
      PreservesWF(MergeAll(trees), tree);
    }
  }

  /** Each section's entries fold into a genuine PHP array. */
  lemma SectionTreeWF(values: Value)
    requires values.Arr? && WF(values) && SectionTree(values).Ok?
    ensures WF(SectionTree(values).value)
  {
    MergedEntriesWF(Entries(values));
  }

  /** The sections fold into a genuine PHP array. */
  lemma {:induction false} SectionsTreeWF(sections: seq<(Key, Value)>)
    requires forall i | 0 <= i < |sections| :: WF(sections[i].1)
    requires SectionsTree(sections).Ok?
    ensures WF(SectionsTree(sections).value)
  {
    if sections != [] {
      var s := sections[|sections| - 1];
      SectionsTreeWF(sections[..|sections| - 1]);
      SectionTreeWF(s.1);
      PutWF(SectionsTree(sections[..|sections| - 1]).value, s.0, SectionTree(s.1).value);
    }
  }

  /** The last section of a fold that succeeded was an array whose entries succeeded, stored over the rest. */
  lemma SectionsLast(sections: seq<(Key, Value)>)
    requires forall i | 0 <= i < |sections| :: WF(sections[i].1)
    requires sections != [] && SectionsTree(sections).Ok?
    ensures var prefix, s := sections[..|sections| - 1], sections[|sections| - 1];
      && SectionsTree(prefix).Ok? && s.1.Arr? && SectionTree(s.1).Ok?
      && SectionsTree(sections).value == Put(SectionsTree(prefix).value, s.0, SectionTree(s.1).value)
  {
  }

  /** A section without entries folds into the empty array. */
  lemma EmptySectionTree()
    ensures SectionTree(Empty) == Ok(Empty)
  {
    assert Entries(Empty) == [];
  }

  /** Pairs that follow the sections: the same keys, in order, and `[]` wherever a section has no entries. */
  predicate Tracks(pairs: seq<(Key, Value)>, sections: seq<(Key, Value)>) {
    && |pairs| == |sections|
    && forall i | 0 <= i < |sections| :: pairs[i].0 == sections[i].0 && (sections[i].1 == Empty ==> pairs[i].1 == Empty)
  }

  lemma TracksSnoc(before: seq<(Key, Value)>, sections: seq<(Key, Value)>, t: Value)
    requires sections != [] && Tracks(before, sections[..|sections| - 1])
    requires sections[|sections| - 1].1 == Empty ==> t == Empty
    ensures Tracks(before + [(sections[|sections| - 1].0, t)], sections)
  {
    var pairs := before + [(sections[|sections| - 1].0, t)];
    forall i | 0 <= i < |sections| ensures pairs[i].0 == sections[i].0 && (sections[i].1 == Empty ==> pairs[i].1 == Empty) {
      if i < |sections| - 1 {
        assert sections[..|sections| - 1][i] == sections[i];
      }
    }
  }

  /**
   * A fold that succeeded assigns each section's key, in order, the array
   * its entries fold into; a section without entries gets the empty array.
   */
  lemma {:induction false} SectionsAsPairs(sections: seq<(Key, Value)>) returns (pairs: seq<(Key, Value)>)
    requires forall i | 0 <= i < |sections| :: WF(sections[i].1)
    requires SectionsTree(sections).Ok?
    ensures SectionsTree(sections).value == FromPairs(pairs)
    ensures Tracks(pairs, sections)
  {
    if sections == [] {
      return [];
    }
    var prefix := sections[..|sections| - 1];
    var s := sections[|sections| - 1];
    SectionsLast(sections);
    var before := SectionsAsPairs(prefix);
    EmptySectionTree();
    var t := SectionTree(s.1).value;
    assert s.1 == Empty ==> t == Empty;
    TracksSnoc(before, sections, t);
    pairs := before + [(s.0, t)];
    assert pairs[..|pairs| - 1] == before;
  }

  /**
   * Distinct sections yield exactly one top-level key each, in input order,
   * and a section without entries holds the empty array.
   */
  lemma OneKeyPerSection(sections: seq<(Key, Value)>)
    requires forall i | 0 <= i < |sections| :: WF(sections[i].1)
    requires forall i, j | 0 <= i < j < |sections| :: sections[i].0 != sections[j].0
    requires SectionsTree(sections).Ok?
    ensures KeysAre(sections, SectionsTree(sections).value.keys)
    ensures forall i | 0 <= i < |sections| ::
      && sections[i].0 in SectionsTree(sections).value.vals
      && (sections[i].1 == Empty ==> SectionsTree(sections).value.vals[sections[i].0] == Empty)
  {
    var pairs := SectionsAsPairs(sections);
    FromPairsKeys(pairs);
    forall i | 0 <= i < |sections|
      ensures && sections[i].0 in FromPairs(pairs).vals
              && (sections[i].1 == Empty ==> FromPairs(pairs).vals[sections[i].0] == Empty)
    {
      FromPairsAt(pairs, i);
    }
  }

  /** The result holds one entry per input section, and an empty section as an empty array. */
  lemma ParsedSections(parsed: Value)
    requires WF(parsed) && parsed.Arr? && Parsed(Ok(parsed)).Ok?
    ensures Parsed(Ok(parsed)).value.vals.Keys == parsed.vals.Keys
    ensures forall k | k in parsed.vals && parsed.vals[k] == Empty :: Parsed(Ok(parsed)).value.vals[k] == Empty
  {
    var data := SectionsTree(Entries(parsed)).value;
    SectionsOfParsed(parsed);
    forall k | k in parsed.vals && parsed.vals[k] == Empty
      ensures Parsed(Ok(parsed)).value.vals[k] == Empty
    {
      SortedTreeAt(data, k);
    }
  }

  lemma SectionsOfParsed(parsed: Value)
    requires WF(parsed) && parsed.Arr? && SectionsTree(Entries(parsed)).Ok?
    ensures SectionsTree(Entries(parsed)).value.vals.Keys == parsed.vals.Keys
    ensures forall k | k in parsed.vals && parsed.vals[k] == Empty :: SectionsTree(Entries(parsed)).value.vals[k] == Empty
  {
    var data := SectionsTree(Entries(parsed)).value;
    SectionKeys(parsed);
    SectionsTreeWF(Entries(parsed));
    assert data.vals.Keys == (set k | k in parsed.keys);
    forall k | k in parsed.vals && parsed.vals[k] == Empty
      ensures data.vals[k] == Empty
    {
      var i :| 0 <= i < |parsed.keys| && parsed.keys[i] == k;
      EmptySectionKept(parsed, i);
    }
  }

  /** The sections' keys are the input's, in the input's order. */
  lemma SectionKeys(parsed: Value)
    requires WF(parsed) && parsed.Arr? && SectionsTree(Entries(parsed)).Ok?
    ensures SectionsTree(Entries(parsed)).value.keys == parsed.keys
  {
    var sections := Entries(parsed);
    assert forall i, j | 0 <= i < j < |sections| :: sections[i].0 != sections[j].0;
    OneKeyPerSection(sections);
  }

  lemma EmptySectionKept(parsed: Value, i: nat)
    requires WF(parsed) && parsed.Arr? && SectionsTree(Entries(parsed)).Ok?
    requires i < |parsed.keys| && parsed.vals[parsed.keys[i]] == Empty
    ensures parsed.keys[i] in SectionsTree(Entries(parsed)).value.vals
    ensures SectionsTree(Entries(parsed)).value.vals[parsed.keys[i]] == Empty
  {
    var sections := Entries(parsed);
    assert forall i, j | 0 <= i < j < |sections| :: sections[i].0 != sections[j].0;
    OneKeyPerSection(sections);
    assert sections[i].1 == Empty;
  }

  /** The last entry's value is stored exactly as the scanner delivered it, at its dotted path. */
  lemma LastEntryWins(entries: seq<(Key, Value)>, key: string, value: Value)
    requires EntryTrees(entries + [(StrKey(key), value)]).Ok? && !value.Arr?
    ensures Lookup(MergeAll(EntryTrees(entries + [(StrKey(key), value)]).value), NormKeys(Split(key, '.'))) == Some(value)
  {
    var all := entries + [(StrKey(key), value)];
    assert all[..|all| - 1] == entries;
    LastLeafWins(EntryTrees(entries).value, NormKeys(Split(key, '.')), value);
  }

  /** A later entry leaves alone every earlier path that parts from its own. */
  lemma DisjointEntryKept(entries: seq<(Key, Value)>, key: string, value: Value, p: seq<Key>)
    requires EntryTrees(entries + [(StrKey(key), value)]).Ok?
    requires Diverge(p, NormKeys(Split(key, '.'))) && Lookup(MergeAll(EntryTrees(entries).value), p).Some?
    ensures Lookup(MergeAll(EntryTrees(entries + [(StrKey(key), value)]).value), p) == Lookup(MergeAll(EntryTrees(entries).value), p)
  {
    var all := entries + [(StrKey(key), value)];
    assert all[..|all| - 1] == entries;
    DivergentKept(EntryTrees(entries).value, NormKeys(Split(key, '.')), value, p);
  }

  /** The result is sorted by key at every level. */
  lemma ParsedSorted(parsed: Value)
    requires WF(parsed) && parsed.Arr? && Parsed(Ok(parsed)).Ok?
    ensures DeepSorted(Parsed(Ok(parsed)).value) && WF(Parsed(Ok(parsed)).value)
  {
    SectionsTreeWF(Entries(parsed));
    SortedTreeSorted(SectionsTree(Entries(parsed)).value);
  }
}

/**
 * `EnvParser::parse` (src/Parsers/EnvParser.php) from the file's contents
 * onward: one `key=value` assignment per line, dotted keys building nested
 * arrays, values read by `getValue`, the whole tree sorted by key.
 */
module EnvParser {
  import opened Wrappers
  import opened PhpValues
  import opened PhpStrings
  import opened Merge
  import opened KeyOrder
  import opened Parser

  /** `explode(PHP_EOL, $contents)` on a system whose end of line is `\n`. */
  function Lines(contents: string): seq<string> {
    Split(contents, '\n')
  }

  /** A line that is blank once trimmed, or a `#` comment. */
  predicate Skipped(line: string) {
    Trim(line) == "" || StartsWith(Trim(line), '#')
  }

  /** The path a line's key names: trimmed, split on dots, as PHP array keys. */
  function KeyPath(key: string): seq<Key> {
    NormKeys(Split(Trim(key), '.'))
  }

  /** What one assignment line contributes: split at its first `=`, the value at the end of the key's path. */
  function LineTree(line: string): (r: Result<Value>)
    requires !Skipped(line)
    ensures r.Err? <==> '=' !in Trim(line)
    ensures r.Err? ==> r.message == NullValueError
    ensures r.Ok? ==> r.value.Arr?
  {
    match SplitFirst(Trim(line), '=')
    case None => Err(NullValueError)
    case Some(kv) =>
      AddedChildToEmpty(Split(Trim(kv.0), '.'), GetValue(kv.1));
      Ok(AddedChild(Empty, Split(Trim(kv.0), '.'), GetValue(kv.1)))
  }

  /** One step of the fold: a skipped line adds nothing, a bad line stops it, any other is merged over the rest. */
  function AddLine(acc: Result<Value>, line: string): (r: Result<Value>)
    ensures acc.Err? ==> r == acc
    ensures acc.Ok? && Skipped(line) ==> r == acc
  {
    match acc
    case Err(m) => Err(m)
    case Ok(data) =>
      if Skipped(line) then Ok(data)
      else
        match LineTree(line)
        case Err(m) => Err(m)
        case Ok(tree) => Ok(ReplaceRecursive(data, tree))
  }

  /** The lines folded into one tree, later lines merged over earlier ones; the first bad line stops it. */
  function LinesTree(lines: seq<string>): (r: Result<Value>)
  {
    if lines == [] then Ok(Empty)
    else AddLine(LinesTree(lines[..|lines| - 1]), lines[|lines| - 1])
  }

  lemma LinesSnoc(lines: seq<string>, line: string)
    ensures LinesTree(lines + [line]) == AddLine(LinesTree(lines), line)
  {
    assert (lines + [line])[..|lines|] == lines;
  }

  lemma LinesStep(lines: seq<string>, i: nat)
    requires i < |lines|
    ensures LinesTree(lines[..i + 1]) == AddLine(LinesTree(lines[..i]), lines[i])
  {
    assert lines[..i + 1][..i] == lines[..i];
  }

  /** What `parse` returns for the given contents: the folded tree, keys sorted at every level. */
  function Parsed(contents: string): Result<Value> {
    match LinesTree(Lines(contents))
    case Err(m) => Err(m)
    case Ok(data) => Ok(SortedTree(data))
  }

  /** `parse` after `file_get_contents`: the loop over lines, then `ksortRecursive`. */
  method Parse(contents: string) returns (r: Result<Value>)
    ensures r == Parsed(contents)
  {
    var lines := Lines(contents);
    var data := Empty;
    var i := 0;
    while i < |lines|
      invariant 0 <= i <= |lines|
      invariant LinesTree(lines[..i]) == Ok(data)
    {
      var line := Trim(lines[i]);
      LinesStep(lines, i);
      if line == "" || StartsWith(line, '#') {
        i := i + 1;
        continue;
      }
      var parts := SplitFirst(line, '=');
      if parts.None? {
        LinesTreeStops(lines, i);
        return Err(NullValueError);
      }
      var key := Split(Trim(parts.value.0), '.');
      var value := GetValue(parts.value.1);
      var parent := AddChild(Empty, key, value);
      AssignmentStep(lines, i, data);
      data := ReplaceRecursive(data, parent);
      i := i + 1;
    }
    assert lines[..i] == lines;
    LinesTreeWF(lines);
    var sorted := KsortRecursive(data);
    r := Ok(sorted);
  }

  /** An assignment line merges its one-path tree over what the lines before it built. */
  lemma AssignmentStep(lines: seq<string>, i: nat, data: Value)
    requires i < |lines| && LinesTree(lines[..i]) == Ok(data)
    requires !Skipped(lines[i]) && SplitFirst(Trim(lines[i]), '=').Some?
    ensures LinesTree(lines[..i + 1]) ==
      Ok(ReplaceRecursive(data, AddedChild(Empty, Split(Trim(SplitFirst(Trim(lines[i]), '=').value.0), '.'), GetValue(SplitFirst(Trim(lines[i]), '=').value.1))))
  {
    LinesStep(lines, i);
  }

  /** Once a line fails, the fold stays failed whatever follows. */
  lemma {:induction false} LinesTreeStops(lines: seq<string>, i: nat)
    requires i < |lines| && LinesTree(lines[..i + 1]).Err?
    ensures LinesTree(lines) == LinesTree(lines[..i + 1])
    decreases |lines| - i
  {
    if i + 1 < |lines| {
      LinesStep(lines, i + 1);
      LinesTreeStops(lines, i + 1);
    } else {
      assert lines[..i + 1] == lines;
    }
  }

  /** A blank or comment line contributes nothing, wherever it stands. */
  lemma {:induction false} SkippedLineIgnored(before: seq<string>, line: string, after: seq<string>)
    requires Skipped(line)
    ensures LinesTree(before + [line] + after) == LinesTree(before + after)
    decreases |after|
  {
    if after == [] {
      LinesSnoc(before, line);
      NoLinesAfter(before, line);
    } else {
      var a := after[..|after| - 1];
      var last := after[|after| - 1];
      SkippedLineIgnored(before, line, a);
      LastLineSplit(before, line, after);
      LinesSnoc(before + [line] + a, last);
      LinesSnoc(before + a, last);
    }
  }

  lemma NoLinesAfter(before: seq<string>, line: string)
    ensures before + [line] + [] == before + [line] && before + [] == before
  {
  }

  lemma LastLineSplit(before: seq<string>, line: string, after: seq<string>)
    requires after != []
    ensures before + [line] + after == (before + [line] + after[..|after| - 1]) + [after[|after| - 1]]
    ensures before + after == (before + after[..|after| - 1]) + [after[|after| - 1]]
  {
    assert after == after[..|after| - 1] + [after[|after| - 1]];
  }

  /** A line is split at its first `=` only: the value keeps any `=` after it. */
  lemma SplitAtFirstEquals(line: string, key: string, value: string)
    requires !Skipped(line) && Trim(line) == key + "=" + value && '=' !in key
    ensures LineTree(line) == Ok(Nest(KeyPath(key), GetValue(value)))
  {
    SplitFirstOfGlued(key, '=', value);
    AddedChildToEmpty(Split(Trim(key), '.'), GetValue(value));
  }

  /** The last assignment line's value is what its key's path reaches. */
  lemma LastLineWins(lines: seq<string>, line: string, key: string, value: string)
    requires LinesTree(lines).Ok? && !Skipped(line)
    requires LineTree(line) == Ok(Nest(KeyPath(key), GetValue(value)))
    ensures LinesTree(lines + [line]) == Ok(ReplaceRecursive(LinesTree(lines).value, Nest(KeyPath(key), GetValue(value))))
    ensures Lookup(LinesTree(lines + [line]).value, KeyPath(key)) == Some(GetValue(value))
  {
    assert (lines + [line])[..|lines|] == lines;
    NestLookup(KeyPath(key), GetValue(value));
    OverlayLeafHolds(LinesTree(lines).value, Nest(KeyPath(key), GetValue(value)), KeyPath(key));
  }

  /** An assignment line leaves alone every earlier path that parts from its own. */
  lemma SiblingPathKept(lines: seq<string>, line: string, key: string, value: string, p: seq<Key>)
    requires LinesTree(lines).Ok? && !Skipped(line)
    requires LineTree(line) == Ok(Nest(KeyPath(key), GetValue(value)))
    requires Diverge(p, KeyPath(key)) && Lookup(LinesTree(lines).value, p).Some?
    ensures Lookup(LinesTree(lines + [line]).value, p) == Lookup(LinesTree(lines).value, p)
  {
    assert (lines + [line])[..|lines|] == lines;
    DivergentPathKept(LinesTree(lines).value, KeyPath(key), GetValue(value), p);
  }

  /** The fold yields a genuine PHP array. */
  lemma {:induction false} LinesTreeWF(lines: seq<string>)
    requires LinesTree(lines).Ok?
    ensures WF(LinesTree(lines).value)
  {
    if lines != [] {
      var line := lines[|lines| - 1];
      LinesTreeWF(lines[..|lines| - 1]);
      if !Skipped(line) {
        var kv := SplitFirst(Trim(line), '=').value;
        NestWF(NormKeys(Split(Trim(kv.0), '.')), GetValue(kv.1));
        PreservesWF(LinesTree(lines[..|lines| - 1]).value, LineTree(line).value);
      }
    }
  }

  /** What `parse` returns is sorted by key at every level, and sorting it again changes nothing. */
  lemma ParsedSorted(contents: string)
    requires Parsed(contents).Ok?
    ensures DeepSorted(Parsed(contents).value) && WF(Parsed(contents).value)
    ensures SortedTree(Parsed(contents).value) == Parsed(contents).value
  {
    LinesTreeWF(Lines(contents));
    SortedTreeSorted(LinesTree(Lines(contents)).value);
    SortedTreeOfSorted(Parsed(contents).value);
  }
}

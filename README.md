# Aplus Framework Config, modelled in Dafny

This project models the core of the Aplus Framework Config library. It covers two parts, built on one merge: PHP's `array_replace_recursive`.

**The registry** is the `Config` class. It stores configuration trees by service name and instance name. After every write it merges a fixed persistence overlay over the whole store. When a directory is set, it loads a service's file lazily on first `get`.

**The parser helpers** are:
- scalar coercion (`getValue`);
- dotted-key tree building (`addChild`);
- the recursive key sort (`ksortRecursive`);
- the database descriptor check;
- the folds that turn database rows, `.env` lines, INI sections and decoded XML into trees;
- the XML element serializer, which groups children by name.

The model is organised as follows:

- `values.dfy`: `Wrappers` (`Option`, `Result`, `Outcome`) and `PhpValues`.
  - A PHP array is an insertion order plus a map keyed by `int|string`.
  - `WF` says the order lists each key of the map exactly once.
  - Also here: `$a[$k] = $v`, single-path trees, and PHP's key normalisation of numeric strings.
- `strings.dfy`: `PhpStrings`, which holds `trim`, `strtolower`, `explode` and the one-pass `strtr` that unescapes double-quoted values.
- `numeric.dfy`: `Numeric`, which holds PHP's numeric-string grammar, its exact value, and the `(int)` cast.
- `keyorder.dfy`: `KeyOrder`, which holds the order `ksort` uses and an insertion sort over keys.
- `merge.dfy`: `Merge`, which holds `array_replace_recursive` and its laws:
  - self-merge;
  - idempotence;
  - overlay leaves win;
  - base-only keys are kept;
  - key order.
- `parser.dfy`: `Parser`, which holds `getValue`, `addChild`, `ksortRecursive` and `checkConfig`.
- `database_parser.dfy`, `env_parser.dfy`, `ini_parser.dfy`, `xml_parser.dfy`: the per-format folds.
  - Each loop is a method, proved equal to a fold function.
  - The lemmas are stated about that fold function.
- `json_xml_element.dfy`: `JsonXml`, the grouping rule of `JsonXMLElement::jsonSerialize`.
- `config.dfy`: `Registry`, the `Config` class.
  - Its fields are `configs`, `configsDir`, `persistence` and `suffix`.
  - Its methods state the new state through functions such as `Stored`, `SetManyRun` and `LoadRun`.
  - Lemmas say what those functions mean: set replaces, add merges, persistence wins and is idempotent, constructor arrays are kept as given.

The filesystem is a `FileSystem` value passed to `setDir`, `load` and `get`:
- what `realpath` resolves each path to;
- which resolved paths are directories;
- the value `Isolation::require` returns for each file.

The database query is not modelled: its rows are an input. Likewise the output of `parse_ini_file`, and the array `json_decode` produces from the XML document, are inputs.

## Model

| member | source | states |
|---|---|---|
| PhpValues.Entries | src/Config.php:177-178 | `foreach` visits each key of a genuine array once, in its order, with the value stored under it |
| PhpValues.Put | src/Config.php:109 | assignment stores the value under the key; an existing key keeps its position, a new key goes last |
| PhpValues.PutTwice | src/Config.php:109 | a second assignment to the same key wins, and the key stays where the first one put it |
| PhpValues.Nest | src/Parsers/Parser.php:80-89 | the single-path tree has exactly the first key at its top, and is the value itself for an empty path |
| PhpValues.NestLookup | src/Parsers/Parser.php:80-89 | following the path through the single-path tree reaches the value |
| PhpValues.NormKey | src/Config.php:109 | a string becomes an int key exactly when it is a canonical decimal integer within the 64-bit range; any other string stays the same string key |
| PhpValues.CanonicalBecomesInt | src/Config.php:109 | a canonical decimal in range becomes the int key of its value, and so does its negation, except `-0` |
| PhpValues.NonDigitStaysString | src/Config.php:109 | a string holding a byte other than a digit or a leading `-` stays a string key |
| PhpValues.LeadingZeroStaysString | src/Config.php:109 | digits with a leading zero stay a string key |
| PhpValues.NormKeys | src/Parsers/Parser.php:82 | each piece of an exploded key is normalised on its own, position by position |
| PhpStrings.TrimLeftSuffix | src/Parsers/Parser.php:101 | the left trim removes exactly a prefix made of trimmed bytes |
| PhpStrings.TrimRightPrefix | src/Parsers/Parser.php:101 | the right trim removes exactly a suffix made of trimmed bytes |
| PhpStrings.Trim | src/Parsers/Parser.php:101 | the trimmed string neither starts nor ends with a trimmed byte, and is no longer than the input |
| PhpStrings.TrimIdempotent | src/Parsers/Parser.php:101 | trimming twice is the same as trimming once |
| PhpStrings.ToLower | src/Parsers/Parser.php:102 | only ASCII capitals are lowered, byte for byte, and the length is kept |
| PhpStrings.IndexOf | src/Parsers/EnvParser.php:31 | the position found holds the separator and none comes before it; no position exactly when the separator is absent |
| PhpStrings.Split | src/Parsers/Parser.php:82 | `explode` gives at least one piece; no piece holds the separator; the pieces joined by it are the input |
| PhpStrings.SplitFirst | src/Parsers/EnvParser.php:31 | the split with limit two has no separator in its first part, and the two parts glued by it are the input |
| PhpStrings.SplitFirstOfGlued | src/Parsers/EnvParser.php:31 | if the first part has no separator, split-at-first recovers both parts exactly |
| PhpStrings.Unescape | src/Parsers/Parser.php:117-120 | the single-pass replacement never lengthens the string |
| PhpStrings.UnescapeEscape | src/Parsers/Parser.php:117-120 | unescaping a string whose quotes and backslashes each carry a backslash gives the string back |
| PhpStrings.UnescapeNoBackslash | src/Parsers/Parser.php:117-120 | a string with no backslash is left alone |
| Numeric.ParseNumeral | src/Parsers/Parser.php:112 | a numeric string splits into whole and fraction digit strings plus a decimal exponent |
| Numeric.NumericChars | src/Parsers/Parser.php:112 | a numeric string, without its surrounding whitespace, holds only digits, signs, a point and `e`/`E` |
| Numeric.NumeralValue | src/Parsers/Parser.php:112 | the exact value of a numeral has the sign of its sign flag |
| Numeric.Truncate | src/Parsers/Parser.php:113 | the `(int)` cast rounds toward zero: it is within one of the value, on the zero side |
| Numeric.IntCast | src/Parsers/Parser.php:112-113 | an in-range numeric string casts to an int within `PHP_INT_MIN..PHP_INT_MAX` |
| Numeric.DigitsCast | src/Parsers/Parser.php:112-113 | a run of digits up to `PHP_INT_MAX` is numeric, in range, and casts to its decimal value |
| KeyOrder.KeyLessIrreflexive | src/Parsers/Parser.php:140 | no key sorts before itself |
| KeyOrder.KeyLessTransitive | src/Parsers/Parser.php:140 | the key order is transitive |
| KeyOrder.KeyLessTotal | src/Parsers/Parser.php:140 | of two different keys, one sorts first |
| KeyOrder.Insert | src/Parsers/Parser.php:140 | inserting adds exactly the one key to the multiset of keys |
| KeyOrder.InsertSorted | src/Parsers/Parser.php:140 | inserting a new key into strictly sorted keys keeps them strictly sorted |
| KeyOrder.SortKeys | src/Parsers/Parser.php:140 | `ksort` on the keys is a permutation of them |
| KeyOrder.SortKeysSorted | src/Parsers/Parser.php:140 | sorting distinct keys puts them in strictly ascending order |
| KeyOrder.SortKeysOfSorted | src/Parsers/Parser.php:140 | keys already in order are left as they are |
| KeyOrder.SortedDistinct | src/Parsers/Parser.php:140 | strictly sorted keys are distinct |
| Merge.NewKeys | src/Parsers/DatabaseParser.php:58 | the keys a merge appends are exactly the overlay keys the base lacks, each once |
| Merge.ReplaceRecursive | src/Parsers/DatabaseParser.php:58 | the result is an array exactly when the overlay is; for two arrays it holds both key sets, and the base's keys come first in their order |
| Merge.OverlayWins | src/Config.php:75 | where the two sides are not both arrays, the overlay's value replaces the base's |
| Merge.ArraysRecurse | src/Config.php:75 | where both sides hold arrays under one key, the result holds their recursive merge |
| Merge.BaseOnlyKept | src/Config.php:75 | a key the overlay lacks keeps the base's value |
| Merge.MergedKeyOrder | src/Config.php:75 | the base's key order comes first; the overlay's new keys follow in the overlay's order |
| Merge.SingleKeyMerged | src/Parsers/DatabaseParser.php:58 | merging a one-key array appends its key unless the base already has it |
| Merge.EmptyOverlay | src/Config.php:72-75 | merging `[]` into an array leaves the array unchanged |
| Merge.SelfMerge | src/Config.php:75 | a value merged with itself is unchanged |
| Merge.Idempotent | src/Config.php:75 | merging the same overlay a second time changes nothing |
| Merge.PreservesWF | src/Config.php:75 | merging two genuine PHP arrays gives one: distinct keys, the order listing the map |
| Merge.OverlayLeafHolds | src/Config.php:75 | every leaf the overlay reaches by a path is what that path reaches in the merge |
| Merge.DivergentPathKept | src/Parsers/DatabaseParser.php:58 | merging a single-path tree leaves alone every base path that parts from it |
| Merge.MergeAll | src/Parsers/IniParser.php:41-44 | folding no trees gives `[]`; otherwise the result is an array exactly when the last tree is one |
| Merge.MergeAllWF | src/Parsers/IniParser.php:41-44 | merging genuine arrays one after another gives a genuine array |
| Merge.LastLeafWins | src/Parsers/IniParser.php:41-44 | the last tree's leaf is what its path reaches, whatever came before |
| Merge.DivergentKept | src/Parsers/IniParser.php:41-44 | a later single-path tree leaves alone every earlier path that parts from it |
| Parser.Inner | src/Parsers/Parser.php:116 | `substr($v, 1, -1)`: for two bytes or more, the input is its first byte, the result, and its last byte |
| Parser.GetValue | src/Parsers/Parser.php:99-126 | never an array; `true`/`false`/`null` in any case exactly when the trimmed input is that keyword; an int only from an in-range numeric string without a point; a float only from one with a point, keeping its text; with `Parser.NumericRule`, the quote lemmas and `Parser.PlainString` every case is pinned |
| Parser.PlainString | src/Parsers/Parser.php:125 | a value holding no quote that is neither a keyword nor an in-range number is returned as the trimmed string |
| Parser.GetValueTrims | src/Parsers/Parser.php:101 | surrounding whitespace never changes the value |
| Parser.QuoteNotKeyword | src/Parsers/Parser.php:103-111 | a string holding a quote is none of the keywords |
| Parser.QuoteNotNumeric | src/Parsers/Parser.php:112 | a string whose core holds a quote is not numeric, so the quote rules are reached |
| Parser.NumericNotKeyword | src/Parsers/Parser.php:103-112 | a numeric string is none of the keywords, so the numeric rule is reached |
| Parser.NumericRule | src/Parsers/Parser.php:112-113 | an in-range numeric string becomes a float keeping its text when it holds a `.`, and its integer cast otherwise |
| Parser.DoubleQuoted | src/Parsers/Parser.php:115-121 | a value wrapped in `"` loses the quotes and has `\"` and `\\` unescaped in one pass |
| Parser.SingleQuoted | src/Parsers/Parser.php:122-124 | a value wrapped in `'` loses the quotes and nothing else, so quoted keywords and numbers stay strings |
| Parser.QuotesInsideOnly | src/Parsers/Parser.php:125 | a value with quotes that do not wrap it is the trimmed string, unchanged |
| Parser.DecimalInteger | src/Parsers/Parser.php:112-114 | a run of digits up to `PHP_INT_MAX` becomes that int |
| Parser.AddChild | src/Parsers/Parser.php:80-89 | the recursive by-reference rewrite leaves the parent as `AddedChild` describes |
| Parser.AddedChildShape | src/Parsers/Parser.php:80-89 | the first key holds a fresh single-path tree leading to the value; what it held before is gone; every other key is untouched |
| Parser.AddedChildToEmpty | src/Parsers/Parser.php:80-89 | built from `[]`, the result is exactly the single-path tree of the keys |
| Parser.SortedTree | src/Parsers/Parser.php:135-145 | non-arrays are returned unchanged; an array keeps its key set, its keys permuted |
| Parser.SortedTreeSorted | src/Parsers/Parser.php:135-145 | the result is a genuine array whose keys ascend at every level |
| Parser.SortedTreeOfSorted | src/Parsers/Parser.php:135-145 | a tree already sorted at every level is left unchanged |
| Parser.SortedTreeIdempotent | src/Parsers/Parser.php:135-145 | sorting twice is sorting once |
| Parser.SortedTreeLookup | src/Parsers/Parser.php:141-143 | a path reaches something in the result exactly when it does in the input, and then it reaches that value, sorted |
| Parser.SortedTreeAt | src/Parsers/Parser.php:141-143 | each entry of the sorted array is the sorted entry; `[]` stays `[]` |
| Parser.KsortRecursive | src/Parsers/Parser.php:135-145 | `ksort`, then the by-reference pass over the values, is `SortedTree` |
| Parser.KeysOfSorted | src/Parsers/Parser.php:140 | after `ksort`, the keys listed are exactly the array's keys |
| Parser.CheckConfig | src/Parsers/Parser.php:61-63 | fails exactly on a non-string, with `<class> config must be a string` |
| DatabaseParser.CheckConfig | src/Parsers/DatabaseParser.php:64-78 | a non-array fails with `must be an array`; the check passes exactly when `username`, `schema` and `table` are all set (not null); otherwise it reports the first one missing in that order |
| DatabaseParser.NotSet | src/Parsers/DatabaseParser.php:69-77 | the failure names the entry that is not set |
| DatabaseParser.RowTree | src/Parsers/DatabaseParser.php:54-57 | a row with a value contributes `getValue` of that value at the end of its exploded key |
| DatabaseParser.RowsTree | src/Parsers/DatabaseParser.php:52-59 | the rows fold into an array; the only failure is `getValue`'s TypeError for a NULL value |
| DatabaseParser.ParseRows | src/Parsers/DatabaseParser.php:52-60 | the row loop with `addChild` and `array_replace_recursive` yields `RowsTree` |
| DatabaseParser.RowsFail | src/Parsers/DatabaseParser.php:52-59 | the fold fails exactly when some row's value is NULL |
| DatabaseParser.LastRowWins | src/Parsers/DatabaseParser.php:52-59 | a last row with a value keeps the fold successful, and its value is what its path reaches |
| DatabaseParser.DisjointRowKept | src/Parsers/DatabaseParser.php:52-59 | a later row with a value leaves alone every earlier path that parts from its own |
| DatabaseParser.RowsTreeWF | src/Parsers/DatabaseParser.php:52-59 | the rows fold into a genuine PHP array |
| DatabaseParser.RowsTreeKeyOrder | src/Parsers/DatabaseParser.php:52-60 | nothing is sorted: the top-level keys come in the order rows first reach them |
| EnvParser.LineTree | src/Parsers/EnvParser.php:31-36 | a line fails with `getValue`'s TypeError exactly when it has no `=`; otherwise it gives a tree |
| EnvParser.AddLine | src/Parsers/EnvParser.php:27-37 | a failed fold stays failed; a blank or `#` line changes nothing |
| EnvParser.Parse | src/Parsers/EnvParser.php:24-39 | the line loop, with its skips and `continue`, then `ksortRecursive`, yields `Parsed` |
| EnvParser.LinesTreeStops | src/Parsers/EnvParser.php:31-34 | the first line without `=` decides the result, whatever follows |
| EnvParser.SkippedLineIgnored | src/Parsers/EnvParser.php:27-30 | a blank or comment line contributes nothing, wherever it stands |
| EnvParser.AssignmentStep | src/Parsers/EnvParser.php:31-37 | an assignment line, split at its first `=`, merges its one-path tree over what the earlier lines built |
| EnvParser.SplitAtFirstEquals | src/Parsers/EnvParser.php:31-34 | a line splits at its first `=` only; its value keeps later `=` and is read by `getValue` at the trimmed, dotted key's path |
| EnvParser.LastLineWins | src/Parsers/EnvParser.php:35-37 | an assignment line is merged over the earlier lines, and its value is what its path reaches |
| EnvParser.SiblingPathKept | src/Parsers/EnvParser.php:35-37 | an assignment line leaves alone every earlier path that parts from its own |
| EnvParser.LinesTreeWF | src/Parsers/EnvParser.php:26-38 | the lines fold into a genuine PHP array |
| EnvParser.ParsedSorted | src/Parsers/EnvParser.php:39 | the result is sorted by key at every level, and sorting it again changes nothing |
| IniParser.EntryTree | src/Parsers/IniParser.php:38-40 | an entry contributes its value, as the scanner typed it, at the end of its exploded key |
| IniParser.EntryTrees | src/Parsers/IniParser.php:37-45 | one tree per entry, unless an integer key stops it with `explode`'s TypeError |
| IniParser.SectionTree | src/Parsers/IniParser.php:36-45 | a section fails only through an integer key |
| IniParser.SectionsTree | src/Parsers/IniParser.php:35-46 | the sections fold into an array |
| IniParser.Parsed | src/Parsers/IniParser.php:31-47 | a warning from the scanner is the parser's exception, prefixed with the class; a success is an array |
| IniParser.Parse | src/Parsers/IniParser.php:33-47 | the outer loop, then `ksortRecursive`, yields `Parsed` |
| IniParser.ParseSection | src/Parsers/IniParser.php:36-45 | the inner loop from `$data[$section] = []` yields `SectionTree` |
| IniParser.OneKeyPerSection | src/Parsers/IniParser.php:35-36 | each section yields exactly one top-level key, in input order; a section without entries holds `[]` |
| IniParser.ParsedSections | src/Parsers/IniParser.php:35-47 | the result's keys are the input's sections, and an empty section holds `[]` |
| IniParser.SectionKeys | src/Parsers/IniParser.php:35-46 | before sorting, the section keys are the input's, in the input's order |
| IniParser.EmptySectionKept | src/Parsers/IniParser.php:36 | a section without entries is kept, holding `[]` |
| IniParser.LastEntryWins | src/Parsers/IniParser.php:37-44 | the last entry's value is stored exactly as the scanner delivered it, at its dotted path |
| IniParser.DisjointEntryKept | src/Parsers/IniParser.php:41-44 | a later entry leaves alone every earlier path that parts from its own |
| IniParser.ParsedSorted | src/Parsers/IniParser.php:47 | the result is a genuine array sorted by key at every level |
| XmlParser.ParsedValue | src/Parsers/XmlParser.php:55-64 | `parseValue` gives an array exactly for an array |
| XmlParser.ParseValue | src/Parsers/XmlParser.php:55-64 | the by-reference rewrite of the array's values is `ParsedValue` |
| PhpValues.ReplacedAt | src/Parsers/XmlParser.php:58-60 | a by-reference `foreach` that has reached a key has rewritten it; any key not yet reached keeps its old value; no key is added or dropped |
| PhpValues.ReplacedAll | src/Parsers/Parser.php:141-143 | once a by-reference `foreach` has gone over every key, each value is its rewritten form |
| XmlParser.Instances | src/Parsers/XmlParser.php:39-45 | the instances fold into an array |
| XmlParser.Parsed | src/Parsers/XmlParser.php:38-46 | a non-array document fails with `foreach`'s warning |
| XmlParser.Parse | src/Parsers/XmlParser.php:38-46 | the instance loop, then `ksortRecursive`, yields `Parsed` |
| XmlParser.LeafRead | src/Parsers/XmlParser.php:63 | `parseValue` on a string is `getValue` on it |
| XmlParser.ParsedValueLookup | src/Parsers/XmlParser.php:57-63 | a path reaches something in the result exactly when it does in the input, and there it reaches the parsed value |
| XmlParser.LeafCoerced | src/Parsers/XmlParser.php:63 | every leaf string `s` of the input becomes `getValue(s)` where it stood |
| XmlParser.ParsedValueShape | src/Parsers/XmlParser.php:57-61 | the same keys, in the same order, at every level; a genuine array stays one |
| XmlParser.InstancesWF | src/Parsers/XmlParser.php:39-45 | the instances fold into a genuine PHP array |
| XmlParser.InstancesKept | src/Parsers/XmlParser.php:39-45 | distinct instances give one key each, in input order, each holding its values through `parseValue` |
| XmlParser.ParsedInstances | src/Parsers/XmlParser.php:39-45 | every instance of the document is kept, holding its values through `parseValue` |
| XmlParser.ParsedSorted | src/Parsers/XmlParser.php:46 | the result is a genuine array sorted by key at every level |
| JsonXml.Place | src/Parsers/Extra/JsonXMLElement.php:28-36 | one pass of the loop adds the child's name to the entries and no other |
| JsonXml.JsonSerialize | src/Parsers/Extra/JsonXMLElement.php:24-43 | the loop over the children, then the text rule, yields `Serialize` |
| JsonXml.Named | src/Parsers/Extra/JsonXMLElement.php:27-28 | the children of one name, in document order |
| JsonXml.EntryOf | src/Parsers/Extra/JsonXMLElement.php:29-36 | a name's entry is the child itself exactly when it is the only one so named |
| JsonXml.GroupEntries | src/Parsers/Extra/JsonXMLElement.php:27-37 | a name has an entry exactly when some child bears it; the entry is the lone child, or the list of all such children in document order |
| JsonXml.FirstChildAsIs | src/Parsers/Extra/JsonXMLElement.php:29-31 | a name's first child is stored as it is |
| JsonXml.SecondChildMakesList | src/Parsers/Extra/JsonXMLElement.php:33-36 | a second child of that name turns the entry into `[first, second]` |
| JsonXml.LaterChildAppended | src/Parsers/Extra/JsonXMLElement.php:36 | any further child of that name is appended to the list |
| JsonXml.FirstIndex | src/Parsers/Extra/JsonXMLElement.php:27 | the first position holding the name |
| JsonXml.GroupKeys | src/Parsers/Extra/JsonXMLElement.php:27-31 | each name is listed once, and the listed names are exactly those with entries |
| JsonXml.GroupOccurs | src/Parsers/Extra/JsonXMLElement.php:27-31 | a name has an entry exactly when some child bears it |
| JsonXml.GroupOrder | src/Parsers/Extra/JsonXMLElement.php:27-31 | for each two listed names, some child of the first comes before every child of the second |
| JsonXml.NamesInFirstOccurrenceOrder | src/Parsers/Extra/JsonXMLElement.php:27-31 | the names come in order of their first occurrence |
| JsonXml.GroupEmpty | src/Parsers/Extra/JsonXMLElement.php:39 | there are no entries exactly when there are no children |
| JsonXml.TextRule | src/Parsers/Extra/JsonXMLElement.php:38-42 | the result is the trimmed text exactly when there are no children and that text is not empty; with children the text is ignored; with neither it is `[]` |
| Registry.Entry | src/Config.php:130 | `$configs[$name][$instance] ?? null` finds a value exactly when the service is an array holding the instance with a non-null value |
| Registry.PersistentResult | src/Config.php:90 | `?? []` under the `array` return type: an array instance, `[]` for a missing one, and a TypeError naming the type for anything else |
| Registry.GetResult | src/Config.php:130 | `?? null` under the `?array` return type: an array instance or null, and a TypeError naming the type for anything else |
| Registry.Store | src/Config.php:109 | writing an instance keeps the store a registry of services |
| Registry.Overlay | src/Config.php:70-76 | applying the persistence keeps the store a registry of services |
| Registry.Stored | src/Config.php:104-111 | the store after `set` is a registry of services |
| Registry.SetCall | src/Config.php:179 | an ill-typed argument fails and changes nothing; a well-typed call stores as `set` does, and passes exactly when `set`'s return value is an array or missing |
| Registry.SetInstances | src/Config.php:178-180 | the inner loop keeps the store a registry |
| Registry.SetManyRun | src/Config.php:175-182 | `setMany` keeps the store a registry |
| Registry.LoadRun | src/Config.php:230-239 | a file that does not resolve to a file fails with `Config file not found: <name>` and changes nothing |
| Registry.Config.constructor | src/Config.php:25-31 | every property starts at its default: no configs, no directory, no persistence |
| Registry.Config.New | src/Config.php:43-55 | arrays are set, or the directory checked, before the persistence is installed, so the given arrays are stored without it |
| Registry.Config.SetPersistence | src/Config.php:62-65 | the overlay is installed as given and nothing else changes |
| Registry.Config.ReplacePersistence | src/Config.php:70-76 | the store becomes the persistence merged over it, or stays as it was when the persistence is empty |
| Registry.Config.GetPersistentConfigs | src/Config.php:87-91 | the persistence is applied, then the instance is returned, `[]` when it is missing or null, and the return type's TypeError when it is any other non-array |
| Registry.Config.Set | src/Config.php:104-111 | the instance is replaced and the persistence reapplied; the call returns what `getPersistentConfigs` returns for the stored instance; directory, persistence and suffix are unchanged |
| Registry.Config.Get | src/Config.php:125-131 | without a directory, or when the service is not empty, state is unchanged and the instance or null is returned, a non-array instance failing the `?array` return type; otherwise `load` runs first and its error propagates |
| Registry.Config.GetInstances | src/Config.php:140-143 | the service's instances when the service exists, null otherwise |
| Registry.Config.Add | src/Config.php:155-165 | an existing non-array instance fails `array_replace_recursive`'s argument check and nothing changes; otherwise an existing instance is merged with the new values and a missing one is set; then the persistence is reapplied and the stored instance returned |
| Registry.Config.SetMany | src/Config.php:175-182 | the outer loop over the services yields `SetManyRun` |
| Registry.Config.SetService | src/Config.php:178-180 | the inner loop over one service's instances yields `SetInstances` |
| Registry.Config.GetAll | src/Config.php:189-192 | the whole store: a genuine registry of services |
| Registry.Config.SetDir | src/Config.php:203-211 | passes exactly when the path resolves to a directory, storing that path plus the separator; otherwise fails naming the path as given, leaving the directory as it was |
| Registry.Config.GetDir | src/Config.php:218-221 | a directory once set ends with the separator |
| Registry.Config.Load | src/Config.php:230-239 | the file's value is set through `setMany([$name => $configs])`; a missing file changes nothing |
| Registry.SetCallStored | src/Config.php:179 | a well-typed call from `setMany` is exactly `set`, failing with `set`'s TypeError |
| Registry.SetCallWithoutPersistence | src/Config.php:179 | with no persistence a well-typed call stores the values and passes |
| Registry.SetReplaces | src/Config.php:109 | the written instance holds exactly the new values; every other service and instance reads as before |
| Registry.SetResult | src/Config.php:104-111 | `set` stores the values merged under the persistence's entry for that instance, where a non-array entry replaces them, or the bare values when the persistence has none |
| Registry.SetReturns | src/Config.php:87-111 | `set` returns the values merged under the persistence's array for the instance, `[]` under a null, the TypeError under another scalar, or the bare values |
| Registry.AddMerges | src/Config.php:156-166 | on an existing instance every leaf of the new values wins and keys only the old instance holds are kept; on a missing one the values are stored as given |
| Registry.PersistenceWins | src/Config.php:70-76 | after the overlay every leaf of the persistence is found, unchanged, at its path |
| Registry.OverlayPersisted | src/Config.php:70-76 | after the overlay every persistence leaf holds in the store |
| Registry.StoredPersisted | src/Config.php:104-111 | after `set` every persistence leaf holds in the store |
| Registry.SetCallPersisted | src/Config.php:179 | one call of `setMany`'s loop keeps every persistence leaf in place |
| Registry.SetInstancesPersisted | src/Config.php:178-180 | the inner loop keeps every persistence leaf in place, wherever it stops |
| Registry.SetManyPersisted | src/Config.php:175-182 | `setMany` keeps every persistence leaf in place, wherever it stops |
| Registry.LoadPersisted | src/Config.php:230-239 | loading a file keeps every persistence leaf in place |
| Registry.OverlayIdempotent | src/Config.php:70-76 | re-applying the persistence changes nothing |
| Registry.PersistenceAdds | src/Config.php:75 | after the overlay, an instance the persistence holds is set exactly when the persistence does not hold null there, whether the store had it or not |
| Registry.InjectedNeverLoaded | src/Config.php:127 | a service to which the persistence gives instances is never empty after the overlay, so `get` never loads its file |
| Registry.StoredWithoutPersistence | src/Config.php:72-74 | with no persistence, `set` is the bare write |
| Registry.ServiceRebuilt | src/Config.php:178-180 | a new service set instance by instance, with no persistence, is stored as given |
| Registry.ServicesRebuilt | src/Config.php:177-181 | setting the first `k` services, with no persistence, stores exactly those `k` services, in order |
| Registry.ConstructedUnchanged | src/Config.php:48-53 | arrays given to the constructor are stored exactly as given, so `getAll` and `getInstances` return them |

## Left out

- I/O and the filesystem.
  - `realpath`, `is_dir`, `is_file` and `Isolation::require` are an oracle value.
  - `file_get_contents` and its `false` result in `EnvParser::parse` are not modelled; the contents are the input.
  - `checkConfig`'s `File not found` and `File is not readable` checks are not modelled.
- The formats' own libraries are inputs: the database connection and query, `parse_ini_file`, `simplexml_load_string`, and the `json_encode`/`json_decode` round trip in `XmlParser::parse`. The XML model starts from the decoded array. No round trip between `JsonXml` and `XmlParser` is stated.
- `JsonParser`, `YamlParser` and the `Debug` collector classes are not part of this model. The parsers are thin wrappers over `json_decode` and `yaml_parse_file`. The collector renders HTML through framework classes that are not shown.
- `parseOrThrow` is not modelled: the error-handler swap is runtime plumbing. Its effect, turning a warning into an exception whose message is prefixed with the class name, is written into `IniParser.ForeachError`, `IniParser.ScannerError` and `XmlParser.ForeachError`.
- IniParser.Parsed: `parse_ini_file`'s result is an input, either the sections array or the text of the warning it raised in place of returning `false`.
- Floating point.
  - A float is kept as the numeric text it came from.
  - The range check compares the exact decimal value, so PHP's rounding to a double near `PHP_INT_MAX` is not modelled.
- Numeric.IntCast: casts the exact value. It does not model PHP converting through a double, which can differ for numbers with an exponent near the range limits.
- KeyOrder.KeyLess, Parser.SortedTree: `ksort` is modelled as integer keys in numeric order, then string keys in byte order. PHP 8 compares differently in two cases. Two numeric string keys compare as numbers, so `"5e1"` sorts before `"1e3"`. An integer key and a non-numeric string key compare as strings, so `"-a"` sorts before `5`. PHP's comparison is not transitive over such mixed keys, and its order then depends on the sort algorithm. The model keeps a total order for all keys.
- TypeError messages leave out the `called in <file> on line <n>` suffix.
- PhpValues.TypeName: type names in messages follow PHP 8.0 to 8.2 (`bool`, `int`, `string`, `array`, `null`). From PHP 8.3 a boolean is named by its value (`true` or `false`), which the model does not follow.
- `DIRECTORY_SEPARATOR` is `/`.
- `EnvParser.Lines`: `PHP_EOL` is fixed at `\n`, the end of line on Unix-like systems; on Windows it is `\r\n`, which the model does not cover.
- EnvParser.LineTree: a line without `=` is modelled as the TypeError `getValue` raises for its missing value. The warning about the undefined array key before it is not modelled. The file declares no strict types, and nothing converts that warning.
- Registry.Config.SetMany: a service whose value is not an array draws `foreach`'s warning in PHP and is skipped. Nothing converts that warning in `Config`, so the model only skips it.
- Registry.Config.New, Registry.Config.SetPersistence: the persistence must be an array of arrays. A service in it that is no array makes PHP's `array_replace_recursive` overwrite that whole service, and the model does not cover a store in that state. An instance that is no array is covered.
- Registry.Config.New: the error paths of `setMany` and `setDir` are modelled as an `Outcome`, not as a thrown exception, so the object is still returned. The constructor is a static method because Dafny constructors cannot fail. `suffix` starts as `.php` in the unnamed constructor, where PHP leaves it uninitialised until the constructor's last line.
- Registry.ConstructedUnchanged: stated for string-keyed services of non-empty string-keyed instances, each an array. An integer key fails with a TypeError, as `SetCall` states. An empty service adds no key.
- `setMany`'s inner `foreach` is the separate method `SetService`: the same loop, split out so that each loop has its own invariant.
- Concurrency and object aliasing are not modelled: each `Config` is used on its own.

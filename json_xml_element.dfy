/**
 * `JsonXMLElement::jsonSerialize` (src/Parsers/Extra/JsonXMLElement.php):
 * how one XML element turns into what `json_encode` sees. Children are
 * grouped by name, a name's first child stored as it is and any further
 * ones turning the entry into a list; an element without children and with
 * text serializes to its trimmed text.
 */
module JsonXml {
  import opened PhpValues
  import opened PhpStrings

  /**
   * An element as `SimpleXMLElement` presents it: its name, its child
   * elements in document order, and its own text (`(string) $this`).
   */
  datatype Element = Element(name: string, children: seq<Element>, text: string)

  /** What `$data[$name]` holds: the first child itself, or the list of all children so named. */
  datatype Entry = One(element: Element) | Many(elements: seq<Element>)

  /** `$data` as an array: names in insertion order, each with its entry. */
  datatype Grouping = Grouping(names: seq<string>, entries: map<string, Entry>)

  /** What `jsonSerialize` returns: a string, or the array of grouped children. */
  datatype Serialized = Text(text: string) | Data(grouping: Grouping)

  /** One pass of the loop: a new name is stored with its child, a repeated one becomes (or extends) a list. */
  function Place(g: Grouping, child: Element): (r: Grouping)
    ensures child.name in r.entries && r.entries.Keys == g.entries.Keys + {child.name}
  {
    if child.name !in g.entries then Grouping(g.names + [child.name], g.entries[child.name := One(child)])
    else
      match g.entries[child.name]
      case One(first) => Grouping(g.names, g.entries[child.name := Many([first, child])])
      case Many(list) => Grouping(g.names, g.entries[child.name := Many(list + [child])])
  }

  /** The children placed one after the other, in document order. */
  function Group(children: seq<Element>): (r: Grouping)
  {
    if children == [] then Grouping([], map[])
    else Place(Group(children[..|children| - 1]), children[|children| - 1])
  }

  /** What `jsonSerialize` returns for an element. */
  function Serialize(e: Element): Serialized {
    var g := Group(e.children);
    if Trim(e.text) != "" && g.entries == map[] then Text(Trim(e.text)) else Data(g)
  }

  /** `jsonSerialize`: the loop over the children filling `$data`, then the text rule. */
  method JsonSerialize(e: Element) returns (r: Serialized)
    ensures r == Serialize(e)
  {
    var names: seq<string> := [];
    var entries: map<string, Entry> := map[];
    var i := 0;
    while i < |e.children|
      invariant 0 <= i <= |e.children|
      invariant Group(e.children[..i]) == Grouping(names, entries)
    {
      var element := e.children[i];
      var name := element.name;
      GroupStep(e.children, i);
      ghost var next := Place(Grouping(names, entries), element);
      i := i + 1;
      if name !in entries {
        names := names + [name];
        entries := entries[name := One(element)];
        assert Grouping(names, entries) == next;
        continue;
      }
      if entries[name].One? {
        ghost var first := entries[name].element;
        entries := entries[name := Many([entries[name].element])];
        assert [first] + [element] == [first, element];
      }
      entries := entries[name := Many(entries[name].elements + [element])];
      assert Grouping(names, entries) == next;
    }
    assert e.children[..i] == e.children;
    var text := Trim(e.text);
    if text != "" && entries == map[] {
      r := Text(text);
    } else {
      r := Data(Grouping(names, entries));
    }
  }

  lemma GroupStep(children: seq<Element>, i: nat)
    requires i < |children|
    ensures Group(children[..i + 1]) == Place(Group(children[..i]), children[i])
  {
    assert children[..i + 1][..i] == children[..i];
  }

  /** The children of the given name, in document order. */
  function Named(children: seq<Element>, name: string): (r: seq<Element>)
    ensures |r| <= |children|
    ensures forall i | 0 <= i < |r| :: r[i].name == name
  {
    if children == [] then []
    else
      var last := children[|children| - 1];
      Named(children[..|children| - 1], name) + (if last.name == name then [last] else [])
  }

  /** The entry a name's children make: a single child on its own, several as a list. */
  function EntryOf(list: seq<Element>): (r: Entry)
    requires list != []
    ensures r.One? <==> |list| == 1
  {
    if |list| == 1 then One(list[0]) else Many(list)
  }

  /**
   * A name has an entry exactly when some child has that name, and the entry
   * holds all of them in document order: the first child alone as itself,
   * from the second on the list `[first, second, ...]`.
   */
  lemma {:induction false} GroupEntries(children: seq<Element>, name: string)
    ensures name in Group(children).entries <==> Named(children, name) != []
    ensures name in Group(children).entries ==> Group(children).entries[name] == EntryOf(Named(children, name))
  {
    if children != [] {
      var prefix := children[..|children| - 1];
      var last := children[|children| - 1];
      GroupEntries(prefix, name);
      if last.name == name && name in Group(prefix).entries {
        var list := Named(prefix, name);
        assert Named(children, name) == list + [last];
        if |list| == 1 {
          assert list == [list[0]];
        }
      }
    }
  }

  /** A name's first child is stored as it is while it is the only one so named. */
  lemma FirstChildAsIs(children: seq<Element>, child: Element)
    requires Named(children, child.name) == []
    ensures Group(children + [child]).entries[child.name] == One(child)
  {
    assert (children + [child])[..|children|] == children;
    GroupEntries(children, child.name);
  }

  /** A second child of the same name turns the entry into the list of both, in document order. */
  lemma SecondChildMakesList(children: seq<Element>, first: Element, child: Element)
    requires Named(children, child.name) == [first]
    ensures Group(children + [child]).entries[child.name] == Many([first, child])
  {
    assert (children + [child])[..|children|] == children;
    GroupEntries(children, child.name);
  }

  /** Any further child of that name is appended to the list. */
  lemma LaterChildAppended(children: seq<Element>, list: seq<Element>, child: Element)
    requires Named(children, child.name) == list && |list| >= 2
    ensures Group(children + [child]).entries[child.name] == Many(list + [child])
  {
    assert (children + [child])[..|children|] == children;
    GroupEntries(children, child.name);
  }

  /** The position of the first child of the given name. */
  function FirstIndex(children: seq<Element>, name: string): (r: nat)
    requires Occurs(children, name)
    ensures r < |children| && children[r].name == name
    ensures forall i | 0 <= i < r :: children[i].name != name
  {
    if children[0].name == name then 0
    else
      assert Occurs(children[1..], name) by {
        var i :| 0 <= i < |children| && children[i].name == name;
        assert children[1..][i - 1].name == name;
      }
      1 + FirstIndex(children[1..], name)
  }

  /** Some child named `a` comes before every child named `b`. */
  ghost predicate Precedes(children: seq<Element>, a: string, b: string) {
    exists p | 0 <= p < |children| :: children[p].name == a && forall q | 0 <= q <= p :: children[q].name != b
  }

  /** Some child has the given name. */
  ghost predicate Occurs(children: seq<Element>, name: string) {
    exists i | 0 <= i < |children| :: children[i].name == name
  }

  lemma OccursSnoc(children: seq<Element>, child: Element, name: string)
    ensures Occurs(children + [child], name) <==> Occurs(children, name) || child.name == name
  {
    var all := children + [child];
    if Occurs(all, name) && child.name != name {
      var i :| 0 <= i < |all| && all[i].name == name;
      assert children[i].name == name;
    }
    if Occurs(children, name) {
      var i :| 0 <= i < |children| && children[i].name == name;
      assert all[i].name == name;
    }
    assert all[|children|] == child;
  }

  lemma PrecedesSnoc(children: seq<Element>, child: Element, a: string, b: string)
    requires Occurs(children, a) && (Precedes(children, a, b) || !Occurs(children, b))
    ensures Precedes(children + [child], a, b)
  {
    if !Occurs(children, b) {
      var p :| 0 <= p < |children| && children[p].name == a;
      assert children[p].name == a && forall q | 0 <= q <= p :: children[q].name != b;
    }
    var all := children + [child];
    var p :| 0 <= p < |children| && children[p].name == a && forall q | 0 <= q <= p :: children[q].name != b;
    assert all[p].name == a;
    forall q | 0 <= q <= p ensures all[q].name != b {
      assert all[q] == children[q];
    }
  }

  /** The names of the grouped array list its entries, each once. */
  lemma {:induction false} GroupKeys(children: seq<Element>)
    ensures Distinct(Group(children).names)
    ensures forall n :: n in Group(children).names <==> n in Group(children).entries
  {
    if children != [] {
      GroupKeys(children[..|children| - 1]);
    }
  }

  /** A name has an entry exactly when some child bears it. */
  lemma {:induction false} GroupOccurs(children: seq<Element>)
    ensures forall n :: n in Group(children).entries <==> Occurs(children, n)
  {
    if children != [] {
      var prefix := children[..|children| - 1];
      var last := children[|children| - 1];
      assert children == prefix + [last];
      GroupOccurs(prefix);
      forall n ensures n in Group(children).entries <==> Occurs(children, n) {
        OccursSnoc(prefix, last, n);
      }
    }
  }

  /** The names come in the order in which they first occur among the children. */
  lemma {:induction false} GroupOrder(children: seq<Element>)
    ensures forall i, j | 0 <= i < j < |Group(children).names| :: Precedes(children, Group(children).names[i], Group(children).names[j])
  {
    if children != [] {
      var prefix := children[..|children| - 1];
      var last := children[|children| - 1];
      assert children == prefix + [last];
      GroupOrder(prefix);
      GroupKeys(prefix);
      GroupOccurs(prefix);
      var g := Group(prefix);
      var names := Group(children).names;
      forall i, j | 0 <= i < j < |names| ensures Precedes(children, names[i], names[j]) {
        if j < |g.names| {
          PrecedesSnoc(prefix, last, g.names[i], g.names[j]);
        } else {
          assert names[i] == g.names[i] && names[j] == last.name;
          PrecedesSnoc(prefix, last, names[i], names[j]);
        }
      }
    }
  }

  /** The names come in order of first occurrence. */
  lemma NamesInFirstOccurrenceOrder(children: seq<Element>, i: nat, j: nat)
    requires i < j < |Group(children).names|
    ensures Occurs(children, Group(children).names[i]) && Occurs(children, Group(children).names[j])
    ensures FirstIndex(children, Group(children).names[i]) < FirstIndex(children, Group(children).names[j])
  {
    GroupKeys(children);
    GroupOccurs(children);
    GroupOrder(children);
    var g := Group(children);
    assert g.names[i] in g.entries && g.names[j] in g.entries;
    assert Precedes(children, g.names[i], g.names[j]);
    var p :| 0 <= p < |children| && children[p].name == g.names[i] &&
      forall q | 0 <= q <= p :: children[q].name != g.names[j];
    assert FirstIndex(children, g.names[i]) <= p;
  }

  /** No children, no entries. */
  lemma GroupEmpty(children: seq<Element>)
    ensures Group(children).entries == map[] <==> children == []
  {
    if children != [] {
      assert children[|children| - 1].name in Group(children).entries;
    }
  }

  /**
   * The text rule: the result is a string exactly when there are no
   * children and the trimmed text is not empty, and then it is that text.
   * Otherwise the children are the result and the text is ignored; with no
   * children and only white space that is the empty array.
   */
  lemma TextRule(e: Element)
    ensures Serialize(e).Text? <==> e.children == [] && Trim(e.text) != ""
    ensures Serialize(e).Text? ==> Serialize(e).text == Trim(e.text)
    ensures e.children != [] ==> Serialize(e) == Data(Group(e.children))
    ensures e.children == [] && Trim(e.text) == "" ==> Serialize(e) == Data(Grouping([], map[]))
  {
    GroupEmpty(e.children);
  }
}

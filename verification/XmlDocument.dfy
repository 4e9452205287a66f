/** The tree a parser's callbacks build: an array of linked nodes over one buffer of texts. */
module XmlDocument {
  import opened Bytes
  import opened XmlForest
  import HttpNames
  import opened Sequences

  datatype Kind = Doctype | ProcessingInstruction | Comment | Element | Text

  datatype Attribute = Attribute(name: bytes, value: bytes)

  /** A node: its text is a stretch of the buffer, with a NUL behind it. */
  datatype Node = Node(kind: Kind, text: nat, len: nat, attributes: seq<Attribute>, links: Links)

  /** A node without its place in memory. */
  datatype Item = Item(kind: Kind, text: bytes, attributes: seq<Attribute>)

  /** What a document says: its items in order, the parent of each, and the innermost open element. */
  datatype Content = Content(items: seq<Item>, parents: Parents, parent: int)

  /** Text follows text, or comment comment, under one parent. */
  predicate Merges(c: Content, kind: Kind)
    requires |c.items| == |c.parents|
  {
    && c.items != [] && c.parents[|c.parents| - 1] == c.parent
    && (kind.Text? || kind.Comment?) && c.items[|c.items| - 1].kind == kind
  }

  /** A new item, or more text for the last one. */
  function Added(c: Content, item: Item, opens: bool): (r: Content)
    requires |c.items| == |c.parents|
    ensures |r.items| == |r.parents|
  {
    var n := |c.items|;
    if Merges(c, item.kind) then c.(items := c.items[n - 1 := c.items[n - 1].(text := c.items[n - 1].text + item.text)])
    else Content(c.items + [item], c.parents + [c.parent], if opens then n else c.parent)
  }

  function LinksOf(nodes: seq<Node>): (r: seq<Links>)
    ensures |r| == |nodes|
  {
    seq(|nodes|, i requires 0 <= i < |nodes| => nodes[i].links)
  }

  /** The texts lie one behind the other, each followed by a NUL, and fill the buffer. */
  ghost predicate Stored(nodes: seq<Node>, strings: bytes) {
    && (forall i :: 0 <= i < |nodes| ==> nodes[i].text + nodes[i].len < |strings|)
    && (forall i, j :: 0 <= i < j < |nodes| ==> nodes[i].text + nodes[i].len < nodes[j].text)
    && (forall i :: 0 <= i < |nodes| ==> strings[nodes[i].text + nodes[i].len] == 0)
    && (nodes != [] ==> nodes[|nodes| - 1].text + nodes[|nodes| - 1].len + 1 == |strings|)
  }

  function ItemOf(node: Node, strings: bytes): Item
    requires node.text + node.len < |strings|
  {
    Item(node.kind, strings[node.text..node.text + node.len], node.attributes)
  }

  ghost function ItemsOf(nodes: seq<Node>, strings: bytes): (r: seq<Item>)
    requires Stored(nodes, strings)
    ensures |r| == |nodes|
  {
    seq(|nodes|, i requires 0 <= i < |nodes| => ItemOf(nodes[i], strings))
  }

  /** An item reads the same in any buffer that agrees with its own up to its NUL. */
  lemma ItemStays(node: Node, strings: bytes, s: bytes, k: nat)
    requires node.text + node.len < |strings| && node.text + node.len < |s|
    requires k <= |strings| && k <= |s| && node.text + node.len <= k && strings[..k] == s[..k]
    ensures ItemOf(node, s) == ItemOf(node, strings)
  {
    assert strings[node.text..node.text + node.len] == strings[..k][node.text..node.text + node.len];
    assert s[node.text..node.text + node.len] == s[..k][node.text..node.text + node.len];
  }

  /** A text behind the others adds an item and changes none. */
  lemma StoreMore(nodes: seq<Node>, strings: bytes, node: Node, text: bytes, grown: seq<Node>, s: bytes)
    requires Stored(nodes, strings) && node.text == |strings| && node.len == |text| && |grown| == |nodes| + 1
    requires grown[|nodes|] == node && s == strings + text + [0]
    requires forall i :: 0 <= i < |nodes| ==> grown[i] == nodes[i].(links := grown[i].links)
    ensures Stored(grown, s)
    ensures ItemsOf(grown, s) == ItemsOf(nodes, strings) + [Item(node.kind, text, node.attributes)]
  {
    var k := |strings|;
    assert s[..k] == strings[..k];
    forall i | 0 <= i < |nodes|
      ensures grown[i].text + grown[i].len < k && s[grown[i].text + grown[i].len] == 0
      ensures ItemOf(grown[i], s) == ItemOf(nodes[i], strings)
    {
      ItemStays(nodes[i], strings, s, k);
    }
    assert s[k..k + |text|] == text && s[k + |text|] == 0;
    assert Stored(grown, s);
    hide ItemOf, Stored;
    assert ItemOf(node, s) == Item(node.kind, text, node.attributes) by {
      NewItem(node, s, text);
    }
  }

  lemma NewItem(node: Node, s: bytes, text: bytes)
    requires node.text + node.len < |s| && s[node.text..node.text + node.len] == text
    ensures ItemOf(node, s) == Item(node.kind, text, node.attributes)
  {
  }

  /** A text written over the last NUL becomes part of the last item. */
  lemma StoreLonger(nodes: seq<Node>, strings: bytes, text: bytes, last: Node, s: bytes)
    requires Stored(nodes, strings) && nodes != []
    requires last == nodes[|nodes| - 1].(len := nodes[|nodes| - 1].len + |text|)
    requires s == strings[..|strings| - 1] + text + [0]
    ensures Stored(nodes[|nodes| - 1 := last], s)
    ensures var item := ItemOf(nodes[|nodes| - 1], strings);
            ItemsOf(nodes[|nodes| - 1 := last], s)
            == ItemsOf(nodes, strings)[|nodes| - 1 := item.(text := item.text + text)]
  {
    var n, k, t := |nodes|, |strings| - 1, nodes[|nodes| - 1 := last];
    var item := ItemOf(nodes[n - 1], strings);
    assert s[..k] == strings[..k];
    forall i | 0 <= i < n - 1
      ensures t[i].text + t[i].len < k && s[t[i].text + t[i].len] == 0 && ItemOf(t[i], s) == ItemOf(nodes[i], strings)
    {
      assert nodes[i].text + nodes[i].len < nodes[n - 1].text;
      ItemStays(nodes[i], strings, s, k);
    }
    assert s[last.text..last.text + last.len] == item.text + text by {
      assert s[..k][last.text..] == item.text;
      assert s[k..k + |text|] == text;
    }
    NewItem(last, s, item.text + text);
    assert Stored(t, s);
    hide ItemOf, Stored;
  }

  /** Closing the innermost open element. */
  function Closed(c: Content): (r: Content)
    requires 0 <= c.parent < |c.parents|
    ensures r.items == c.items && r.parents == c.parents
  {
    c.(parent := c.parents[c.parent])
  }

  /** The content kept in the array and the buffer. */
  ghost function DocumentOf(nodes: seq<Node>, strings: bytes, parent: int): (c: Content)
    requires Stored(nodes, strings)
    ensures |c.items| == |c.parents| == |nodes| && c.parent == parent
  {
    Content(ItemsOf(nodes, strings), ParentsOf(LinksOf(nodes)), parent)
  }

  /** What every callback keeps. */
  ghost predicate Sound(nodes: seq<Node>, strings: bytes, parent: int, previous: int, last: int, events: seq<Event>) {
    && Stored(nodes, strings) && Built(LinksOf(nodes), parent, previous, events)
    && last == LastChild(ParentsOf(LinksOf(nodes)), -1)
  }

  lemma SoundBounds(nodes: seq<Node>, strings: bytes, parent: int, previous: int, last: int, events: seq<Event>)
    requires Sound(nodes, strings, parent, previous, last, events)
    ensures Stored(nodes, strings) && -1 <= parent < |nodes| && -1 <= previous < |nodes|
    ensures Rooted(DocumentOf(nodes, strings, parent).parents)
    ensures nodes != [] ==> strings != []
    ensures Depth(DocumentOf(nodes, strings, parent).parents, parent) == 0 <==> parent == -1
  {
    BuiltBounds(LinksOf(nodes), parent, previous, events);
    TopLevel(ParentsOf(LinksOf(nodes)), parent);
  }

  lemma MergesIf(nodes: seq<Node>, strings: bytes, parent: int, kind: Kind)
    requires Stored(nodes, strings)
    ensures Merges(DocumentOf(nodes, strings, parent), kind)
            <==> && nodes != [] && nodes[|nodes| - 1].links.parent == parent
                 && (kind.Text? || kind.Comment?) && nodes[|nodes| - 1].kind == kind
  {
  }

  /** More text for the last node. */
  lemma SoundLonger(
    nodes: seq<Node>, strings: bytes, parent: int, previous: int, last: int, events: seq<Event>, kind: Kind,
    text: bytes, longer: Node, s: bytes)
    requires Sound(nodes, strings, parent, previous, last, events) && Merges(DocumentOf(nodes, strings, parent), kind)
    requires longer == nodes[|nodes| - 1].(len := nodes[|nodes| - 1].len + |text|)
    requires s == strings[..|strings| - 1] + text + [0]
    ensures var t := nodes[|nodes| - 1 := longer];
            && Sound(t, s, parent, previous, last, events)
            && DocumentOf(t, s, parent) == Added(DocumentOf(nodes, strings, parent), Item(kind, text, []), false)
  {
    hide Built, LastChild;
    var t := nodes[|nodes| - 1 := longer];
    StoreLonger(nodes, strings, text, longer, s);
    hide Stored, ItemOf;
    assert LinksOf(t) == LinksOf(nodes);
    assert DocumentOf(nodes, strings, parent).items[|nodes| - 1] == ItemOf(nodes[|nodes| - 1], strings);
  }

  /** A node of its own. */
  lemma SoundMore(
    nodes: seq<Node>, strings: bytes, parent: int, previous: int, last: int, events: seq<Event>, node: Node,
    text: bytes, grown: seq<Node>, s: bytes, opens: bool)
    requires Sound(nodes, strings, parent, previous, last, events)
    requires !Merges(DocumentOf(nodes, strings, parent), node.kind)
    requires node == Node(node.kind, |strings|, |text|, node.attributes, Links(parent, -1, -1, -1, previous))
    requires |grown| == |nodes| + 1 && grown[|nodes|] == node && s == strings + text + [0]
    requires forall i :: 0 <= i < |nodes| ==>
               grown[i] == nodes[i].(links := Relinked(nodes[i].links, i, |nodes|, parent, previous))
    ensures var n := |nodes|;
            var inner := if opens then n else parent;
            && Sound(grown, s, inner, if opens then -1 else n, if parent == -1 then n else last, events + [Visit(n)])
            && DocumentOf(grown, s, inner)
               == Added(DocumentOf(nodes, strings, parent), Item(node.kind, text, node.attributes), opens)
            && var p, q := DocumentOf(nodes, strings, parent).parents, DocumentOf(grown, s, inner).parents;
               Rooted(p) && Rooted(q) && Depth(q, inner) == Depth(p, parent) + if opens then 1 else 0
  {
    hide LastChild, Depth, ItemOf;
    var p := ParentsOf(LinksOf(nodes));
    BuiltBounds(LinksOf(nodes), parent, previous, events);
    hide Built, Open;
    StoreMore(nodes, strings, node, text, grown, s);
    BuildNode(LinksOf(nodes), parent, previous, events, LinksOf(grown), opens);
    hide Stored, Relinked, Rooted;
    DepthGrows(p, parent);
    NewLast(p, parent, -1);
  }

  class Document {
    var nodes: seq<Node>
    var strings: bytes
    var parent: int
    var previous: int
    var last: int

    /** What a walk through the nodes has done so far, with the open elements not left yet. */
    ghost var events: seq<Event>

    ghost predicate Valid()
      reads this
    {
      Sound(nodes, strings, parent, previous, last, events)
    }

    ghost function View(): (c: Content)
      requires Valid()
      reads this
      ensures |c.items| == |c.parents| && c.parent == parent
    {
      DocumentOf(nodes, strings, parent)
    }

    /** How many elements are open: what the parser counts as its depth. */
    ghost function OpenElements(): nat
      requires Valid()
      reads this
    {
      SoundBounds(nodes, strings, parent, previous, last, events);
      Depth(View().parents, parent)
    }

    constructor ()
      ensures Valid() && View() == Content([], [], -1) && OpenElements() == 0 && events == []
    {
      nodes, strings := [], [];
      parent, previous, last := -1, -1, -1;
      events := [];
    }

    /** More text for the last node, if it is of the same kind under the same parent. */
    method Merge(kind: Kind, text: bytes) returns (merged: bool)
      requires Valid()
      modifies this`nodes, this`strings
      ensures Valid() && merged == Merges(old(View()), kind)
      ensures merged ==> View() == Added(old(View()), Item(kind, text, []), false)
      ensures !merged ==> nodes == old(nodes) && strings == old(strings)
    {
      hide Sound, DocumentOf, Stored, Merges, Added;
      merged := false;
      SoundBounds(nodes, strings, parent, previous, last, events);
      MergesIf(nodes, strings, parent, kind);
      if |nodes| > 0 && nodes[|nodes| - 1].links.parent == parent {
        var node := nodes[|nodes| - 1];
        if (kind.Text? && node.kind.Text?) || (kind.Comment? && node.kind.Comment?) {
          var longer := node.(len := node.len + |text|);
          var s := strings[..|strings| - 1] + text + [0];
          SoundLonger(nodes, strings, parent, previous, last, events, kind, text, longer, s);
          nodes := nodes[|nodes| - 1 := longer];
          strings := s;
          merged := true;
        }
      }
    }

    /** Tells the parent and the previous sibling about the node to come. */
    method Relink()
      requires -1 <= parent < |nodes| && -1 <= previous < |nodes|
      modifies this`nodes
      ensures |nodes| == |old(nodes)|
      ensures forall i :: 0 <= i < |nodes| ==>
                nodes[i] == old(nodes)[i].(links := Relinked(old(nodes)[i].links, i, |nodes|, parent, previous))
    {
      var used := |nodes|;
      if parent != -1 {
        if nodes[parent].links.child < 0 {
          nodes := nodes[parent := nodes[parent].(links := nodes[parent].links.(child := used))];
        }
        nodes := nodes[parent := nodes[parent].(links := nodes[parent].links.(lastChild := used))];
      }
      if previous != -1 {
        nodes := nodes[previous := nodes[previous].(links := nodes[previous].links.(next := used))];
      }
    }

    /** Adds a node below the innermost open element, or its text to the last node; an element may stay open itself. */
    method CreateNode(kind: Kind, text: bytes, attributes: seq<Attribute>, opens: bool, depth: nat)
      requires Valid() && OpenElements() == depth && (opens ==> kind.Element?) && (kind.Element? || attributes == [])
      modifies this
      ensures Valid() && View() == Added(old(View()), Item(kind, text, attributes), opens)
      ensures OpenElements() == if opens then depth + 1 else depth
    {
      hide Sound, DocumentOf, Stored, Merges, Added, Depth, Rooted, Relinked;
      SoundBounds(nodes, strings, parent, previous, last, events);
      if opens {
        ElementsStand(View(), kind);
      }
      var merged := Merge(kind, text);
      if merged {
        MergingAddsNoNode(old(View()), Item(kind, text, []));
        return;
      }
      var used := |nodes|;
      var node := Node(kind, |strings|, |text|, attributes, Links(parent, -1, -1, -1, previous));
      Relink();
      nodes := nodes + [node];
      strings := strings + text + [0];
      SoundMore(old(nodes), old(strings), parent, previous, last, events, node, text, nodes, strings, opens);
      events := events + [Visit(used)];
      previous := if opens then -1 else used;
      if depth == 0 {
        last := used;
      }
      if opens {
        parent := |nodes| - 1;
      }
    }

    method OnDoctype(text: bytes, depth: nat)
      requires Valid() && OpenElements() == depth
      modifies this
      ensures Valid() && View() == Added(old(View()), Item(Doctype, text, []), false) && OpenElements() == depth
    {
      CreateNode(Doctype, text, [], false, depth);
    }

    method OnProcessingInstruction(text: bytes, depth: nat)
      requires Valid() && OpenElements() == depth
      modifies this
      ensures Valid() && View() == Added(old(View()), Item(ProcessingInstruction, text, []), false)
      ensures OpenElements() == depth
    {
      CreateNode(ProcessingInstruction, text, [], false, depth);
    }

    method OnComment(text: bytes, depth: nat)
      requires Valid() && OpenElements() == depth
      modifies this
      ensures Valid() && View() == Added(old(View()), Item(Comment, text, []), false) && OpenElements() == depth
    {
      CreateNode(Comment, text, [], false, depth);
    }

    method OnCharacterData(text: bytes, depth: nat)
      requires Valid() && OpenElements() == depth
      modifies this
      ensures Valid() && View() == Added(old(View()), Item(Text, text, []), false) && OpenElements() == depth
    {
      CreateNode(Text, text, [], false, depth);
    }

    method OnElementStart(name: bytes, attributes: seq<Attribute>, depth: nat)
      requires Valid() && OpenElements() == depth
      modifies this
      ensures Valid() && View() == Added(old(View()), Item(Element, name, attributes), true)
      ensures OpenElements() == depth + 1
    {
      CreateNode(Element, name, attributes, true, depth);
    }

    method OnEmptyElement(name: bytes, attributes: seq<Attribute>, depth: nat)
      requires Valid() && OpenElements() == depth
      modifies this
      ensures Valid() && View() == Added(old(View()), Item(Element, name, attributes), false)
      ensures OpenElements() == depth
    {
      CreateNode(Element, name, attributes, false, depth);
    }

    /** Closes the innermost open element, if the name is its own in any case. */
    method OnElementEnd(name: bytes, depth: nat) returns (ok: bool)
      requires Valid() && OpenElements() == depth > 0
      modifies this
      ensures Valid() && 0 <= old(parent) < |old(View()).items|
      ensures ok == Names(old(View()).items[old(parent)].text, name)
      ensures View() == if ok then Closed(old(View())) else old(View())
      ensures OpenElements() == if ok then depth - 1 else depth
    {
      hide Sound, Depth, Rooted;
      SoundBounds(nodes, strings, parent, previous, last, events);
      var node := nodes[parent];
      ItemAt(nodes, strings, parent, parent);
      if node.len != |name| || HttpNames.Compare(strings[node.text..node.text + node.len], name) != 0 {
        return false;
      }
      SoundEnd(nodes, strings, parent, previous, last, events);
      events := if parent == |nodes| - 1 then events else events + [Leave(parent)];
      previous := parent;
      parent := node.links.parent;
      ok := true;
    }

    /** Writes the nodes from one on through its later siblings, with everything below them. */
    method WriteNodes(pretty: bool, first: nat, depth: nat, out: bytes) returns (written: bytes)
      requires Valid() && first < |nodes| && depth + 1 == NodeDepth(View(), first)
      ensures written == out + Printed(View(), pretty, Walk(LinksOf(nodes), first))
      decreases |nodes| - first, 1
    {
      hide Sound, DocumentOf, PrintedEvent, Printed, Walk, NodeDepth, LinksOf;
      ghost var c, links := View(), LinksOf(nodes);
      var i := first;
      written := out;
      WalkParts(nodes, strings, parent, previous, last, events, pretty, i);
      while nodes[i].links.next >= 0
        invariant first <= i < |nodes| && depth + 1 == NodeDepth(c, i)
        invariant written + Printed(c, pretty, Walk(links, i)) == out + Printed(c, pretty, Walk(links, first))
        decreases |nodes| - i
      {
        WalkParts(nodes, strings, parent, previous, last, events, pretty, i);
        var next := nodes[i].links.next;
        Associative(written, Printed(c, pretty, Subtree(links, i)), Printed(c, pretty, Walk(links, next)));
        written := WriteNode(pretty, i, depth, written);
        i := next;
      }
      WalkParts(nodes, strings, parent, previous, last, events, pretty, i);
      written := WriteNode(pretty, i, depth, written);
    }

    /** Writes a node and everything below it. */
    method WriteNode(pretty: bool, i: nat, depth: nat, out: bytes) returns (written: bytes)
      requires Valid() && i < |nodes| && depth + 1 == NodeDepth(View(), i)
      ensures written == out + Printed(View(), pretty, Subtree(LinksOf(nodes), i))
      decreases |nodes| - i, 0
    {
      hide Sound, DocumentOf, PrintedEvent, Printed, Subtree, NodeDepth, LinksOf;
      ghost var c, links := View(), LinksOf(nodes);
      WalkParts(nodes, strings, parent, previous, last, events, pretty, i);
      var open := NodeToString(pretty, i, depth);
      written := out + open;
      var node := nodes[i];
      if node.links.child != -1 {
        var inner := written;
        written := WriteNodes(pretty, node.links.child, depth + 1, written);
        SoundBounds(nodes, strings, parent, previous, last, events);
        ItemAt(nodes, strings, parent, i);
        LeaveText(c, pretty, i, depth);
        var close := (if pretty then [CR, LF] + Tabs(depth) else []) + EndTag(strings[node.text..node.text + node.len]);
        ghost var middle := Printed(c, pretty, Walk(links, node.links.child));
        Associative(out, open, middle + close);
        Associative(out + open, middle, close);
        written := written + close;
      }
    }

    /** Writes what stands for a node itself: a start tag, an empty element, or its text. */
    method NodeToString(pretty: bool, i: nat, depth: nat) returns (text: bytes)
      requires Valid() && i < |nodes| && depth + 1 == NodeDepth(View(), i)
      ensures text == PrintedEvent(View(), pretty, Visit(i))
    {
      hide Sound, PrintedEvent, DocumentOf, NodeDepth, Tabs, AttributesText, HttpNames.UpToNul, Stored, NodeBody, FirstChild, Merges, LinksOf;
      SoundBounds(nodes, strings, parent, previous, last, events);
      ItemAt(nodes, strings, parent, i);
      HasChild(nodes, strings, parent, previous, last, events, i);
      VisitText(View(), pretty, i, depth);
      var node := nodes[i];
      var attributes := AttributesToString(node.attributes);
      text := NodeBody(node.kind, strings[node.text..node.text + node.len], attributes, node.links.child > 0);
      if pretty {
        text := (if i != 0 then [CR, LF] else []) + Tabs(depth) + text;
      }
    }

    method AttributesToString(attributes: seq<Attribute>) returns (text: bytes)
      ensures text == AttributesText(attributes)
    {
      text := [];
      for i := 0 to |attributes|
        invariant text == AttributesText(attributes[..i])
      {
        var quotes := if DOUBLE_QUOTE in attributes[i].value then [SINGLE_QUOTE] else [DOUBLE_QUOTE];
        assert attributes[..i + 1][..i] == attributes[..i];
        text := text + ([SPACE] + HttpNames.UpToNul(attributes[i].name) + Ascii("=") + quotes
                        + HttpNames.UpToNul(attributes[i].value) + quotes);
      }
      assert attributes[..|attributes|] == attributes;
    }

    /** Writes the whole document. */
    method ToString(pretty: bool) returns (text: bytes)
      requires Valid()
      ensures text == if nodes == [] then [] else Printed(View(), pretty, Walk(LinksOf(nodes), 0))
      ensures parent == -1 ==> text == PrintedDocument(View(), pretty)
    {
      hide Sound, Printed, Walk, NodeDepth, DocumentOf;
      if parent == -1 {
        PrintedEvents(nodes, strings, parent, previous, last, events, pretty);
      }
      if |nodes| == 0 {
        NothingWalked(nodes, strings, parent, previous, last, events, pretty);
        return [];
      }
      AllWalked(nodes, strings, parent, previous, last, events);
      text := WriteNodes(pretty, 0, 0, []);
    }
  }

  const DOUBLE_QUOTE: byte := 0x22
  const SINGLE_QUOTE: byte := 0x27

  function Tabs(depth: nat): bytes {
    seq(depth, _ => TAB)
  }

  function EndTag(name: bytes): bytes {
    Ascii("</") + HttpNames.UpToNul(name) + Ascii(">")
  }

  /** Attributes in order, each in double quotes unless its value contains one. */
  function AttributesText(attributes: seq<Attribute>): bytes {
    if attributes == [] then []
    else
      var last := attributes[|attributes| - 1];
      var quotes := if DOUBLE_QUOTE in last.value then [SINGLE_QUOTE] else [DOUBLE_QUOTE];
      AttributesText(attributes[..|attributes| - 1])
      + ([SPACE] + HttpNames.UpToNul(last.name) + Ascii("=") + quotes + HttpNames.UpToNul(last.value) + quotes)
  }

  function NodeBody(kind: Kind, text: bytes, attributes: bytes, hasChild: bool): bytes {
    var text := HttpNames.UpToNul(text);
    match kind
    case Doctype => Ascii("<!DOCTYPE ") + text + Ascii(">")
    case ProcessingInstruction => Ascii("<?") + text + Ascii("?>")
    case Comment => Ascii("<!-- ") + text + Ascii(" -->")
    case Element => Ascii("<") + text + attributes + if hasChild then Ascii(">") else Ascii("/>")
    case Text => text
  }

  function NodeText(item: Item, hasChild: bool): bytes {
    NodeBody(item.kind, item.text, AttributesText(item.attributes), hasChild)
  }

  /** How many elements enclose a node, itself included. */
  function NodeDepth(c: Content, i: int): nat {
    if Rooted(c.parents) && 0 <= i < |c.parents| then Depth(c.parents, i) else 0
  }

  /** What a walk writes when it comes to a node, and when it leaves one that has children. */
  function PrintedEvent(c: Content, pretty: bool, event: Event): bytes {
    if !(0 <= event.node < |c.items|) then []
    else
      var tabs := if pretty then Tabs(if NodeDepth(c, event.node) == 0 then 0 else NodeDepth(c, event.node) - 1) else [];
      var line := if pretty && (event.Leave? || event.node != 0) then [CR, LF] else [];
      var item := c.items[event.node];
      line + tabs + if event.Visit? then NodeText(item, FirstChild(c.parents, event.node) >= 0) else EndTag(item.text)
  }

  function Printed(c: Content, pretty: bool, events: seq<Event>): bytes {
    if events == [] then [] else PrintedEvent(c, pretty, events[0]) + Printed(c, pretty, events[1..])
  }

  /** The printed form of a document without open elements: that of a walk through all of it. */
  function PrintedDocument(c: Content, pretty: bool): bytes {
    if Rooted(c.parents) then Printed(c, pretty, Walked(c.parents, -1)) else []
  }

  lemma {:induction false} PrintedJoin(c: Content, pretty: bool, a: seq<Event>, b: seq<Event>)
    ensures Printed(c, pretty, a + b) == Printed(c, pretty, a) + Printed(c, pretty, b)
  {
    hide PrintedEvent;
    if a == [] {
      assert a + b == b;
    } else {
      assert (a + b)[1..] == a[1..] + b;
      PrintedFirst(c, pretty, a);
      PrintedFirst(c, pretty, a + b);
      hide Printed;
      PrintedJoin(c, pretty, a[1..], b);
      Associative(PrintedEvent(c, pretty, a[0]), Printed(c, pretty, a[1..]), Printed(c, pretty, b));
    }
  }

  lemma PrintedFirst(c: Content, pretty: bool, events: seq<Event>)
    requires events != []
    ensures Printed(c, pretty, events) == PrintedEvent(c, pretty, events[0]) + Printed(c, pretty, events[1..])
  {
  }

  lemma PrintedOne(c: Content, pretty: bool, event: Event)
    ensures Printed(c, pretty, [event]) == PrintedEvent(c, pretty, event) && Printed(c, pretty, []) == []
  {
    assert [event][1..] == [];
  }

  /** The comparison of the names of a start and an end tag. */
  predicate Names(start: bytes, end: bytes) {
    |start| == |end| && HttpNames.Compare(start, end) == 0
  }

  lemma ItemAt(nodes: seq<Node>, strings: bytes, parent: int, i: nat)
    requires Stored(nodes, strings) && i < |nodes|
    ensures nodes[i].text + nodes[i].len < |strings|
    ensures var c := DocumentOf(nodes, strings, parent);
            && c.items[i] == ItemOf(nodes[i], strings)
            && c.items[i].text == strings[nodes[i].text..nodes[i].text + nodes[i].len]
            && c.parents[i] == nodes[i].links.parent
  {
  }

  lemma SoundEnd(nodes: seq<Node>, strings: bytes, parent: int, previous: int, last: int, events: seq<Event>)
    requires Sound(nodes, strings, parent, previous, last, events) && 0 <= parent < |nodes|
    ensures var inner := nodes[parent].links.parent;
            && Sound(nodes, strings, inner, parent, last, if parent == |nodes| - 1 then events else events + [Leave(parent)])
            && DocumentOf(nodes, strings, inner) == Closed(DocumentOf(nodes, strings, parent))
            && var p := DocumentOf(nodes, strings, parent).parents;
               Rooted(p) && -1 <= inner < |p| && Depth(p, parent) == Depth(p, inner) + 1
  {
    hide Stored, LastChild;
    BuiltBounds(LinksOf(nodes), parent, previous, events);
    hide Built;
    BuildEnd(LinksOf(nodes), parent, previous, events);
  }

  lemma MergingAddsNoNode(c: Content, item: Item)
    requires |c.items| == |c.parents| && Merges(c, item.kind)
    ensures !item.kind.Element?
    ensures Added(c, item, false).parents == c.parents && Added(c, item, false).parent == c.parent
  {
  }

  lemma ElementsStand(c: Content, kind: Kind)
    requires |c.items| == |c.parents| && kind.Element?
    ensures !Merges(c, kind)
  {
  }

  lemma SoundForest(nodes: seq<Node>, strings: bytes, parent: int, previous: int, last: int, events: seq<Event>)
    requires Sound(nodes, strings, parent, previous, last, events)
    ensures Forest(LinksOf(nodes)) && Preorder(DocumentOf(nodes, strings, parent).parents)
    ensures DocumentOf(nodes, strings, parent).parents == ParentsOf(LinksOf(nodes))
    ensures events == Walked(ParentsOf(LinksOf(nodes)), parent)
  {
  }

  /** How the printed form of a walk is put together from those of its parts. */
  lemma WalkParts(
    nodes: seq<Node>, strings: bytes, parent: int, previous: int, last: int, events: seq<Event>, pretty: bool, i: nat)
    requires Sound(nodes, strings, parent, previous, last, events) && i < |nodes|
    ensures var c, links, l := DocumentOf(nodes, strings, parent), LinksOf(nodes), nodes[i].links;
            && -1 <= l.child < |nodes| && (l.child != -1 ==> i < l.child && NodeDepth(c, l.child) == NodeDepth(c, i) + 1)
            && -1 <= l.next < |nodes| && (l.next != -1 ==> i < l.next && NodeDepth(c, l.next) == NodeDepth(c, i))
            && Forest(links)
            && Printed(c, pretty, Walk(links, i))
               == Printed(c, pretty, Subtree(links, i))
                  + (if l.next == -1 then [] else Printed(c, pretty, Walk(links, l.next)))
            && Printed(c, pretty, Subtree(links, i))
               == PrintedEvent(c, pretty, Visit(i))
                  + (if l.child == -1 then []
                     else Printed(c, pretty, Walk(links, l.child)) + PrintedEvent(c, pretty, Leave(i)))
  {
    var c, links := DocumentOf(nodes, strings, parent), LinksOf(nodes);
    SoundForest(nodes, strings, parent, previous, last, events);
    assert Linked(links, i);
    LinkDepths(links, i);
    hide Sound, Stored, DocumentOf, Linked, Forest, FirstChild, LastChild, NextSibling, Printed, PrintedEvent, Depth, Preorder;
    PrintedParts(c, links, pretty, i);
  }

  lemma LinkDepths(links: seq<Links>, i: nat)
    requires Forest(links) && i < |links|
    ensures var p, l := ParentsOf(links), links[i];
            && -1 <= l.child < |links| && (l.child != -1 ==> i < l.child && Depth(p, l.child) == Depth(p, i) + 1)
            && -1 <= l.next < |links| && (l.next != -1 ==> i < l.next && Depth(p, l.next) == Depth(p, i))
  {
    assert Linked(links, i);
  }

  lemma PrintedParts(c: Content, links: seq<Links>, pretty: bool, i: nat)
    requires Forest(links) && i < |links|
    requires -1 <= links[i].child < |links| && -1 <= links[i].next < |links|
    requires (links[i].child != -1 ==> i < links[i].child) && (links[i].next != -1 ==> i < links[i].next)
    ensures Printed(c, pretty, Walk(links, i))
            == Printed(c, pretty, Subtree(links, i))
               + (if links[i].next == -1 then [] else Printed(c, pretty, Walk(links, links[i].next)))
    ensures Printed(c, pretty, Subtree(links, i))
            == PrintedEvent(c, pretty, Visit(i))
               + (if links[i].child == -1 then []
                  else Printed(c, pretty, Walk(links, links[i].child)) + PrintedEvent(c, pretty, Leave(i)))
  {
    hide Forest, Printed, PrintedEvent;
    PrintedOne(c, pretty, Visit(i));
    PrintedOne(c, pretty, Leave(i));
    if links[i].next != -1 {
      PrintedJoin(c, pretty, Subtree(links, i), Walk(links, links[i].next));
    } else {
      PrintedJoin(c, pretty, Subtree(links, i), []);
    }
    if links[i].child != -1 {
      var inner := Walk(links, links[i].child);
      PrintedJoin(c, pretty, inner, [Leave(i)]);
      PrintedJoin(c, pretty, [Visit(i)], inner + [Leave(i)]);
    } else {
      PrintedJoin(c, pretty, [Visit(i)], []);
    }
  }

  lemma LeaveText(c: Content, pretty: bool, i: nat, depth: nat)
    requires i < |c.items| && depth + 1 == NodeDepth(c, i)
    ensures PrintedEvent(c, pretty, Leave(i)) == (if pretty then [CR, LF] + Tabs(depth) else []) + EndTag(c.items[i].text)
  {
  }

  lemma VisitText(c: Content, pretty: bool, i: nat, depth: nat)
    requires i < |c.items| && depth + 1 == NodeDepth(c, i)
    ensures PrintedEvent(c, pretty, Visit(i))
            == var text := NodeText(c.items[i], FirstChild(c.parents, i) >= 0);
               if pretty then (if i != 0 then [CR, LF] else []) + Tabs(depth) + text else text
  {
    hide NodeText, Tabs;
  }

  lemma HasChild(
    nodes: seq<Node>, strings: bytes, parent: int, previous: int, last: int, events: seq<Event>, i: nat)
    requires Sound(nodes, strings, parent, previous, last, events) && i < |nodes|
    ensures nodes[i].links.child > 0 <==> FirstChild(DocumentOf(nodes, strings, parent).parents, i) >= 0
  {
    SoundForest(nodes, strings, parent, previous, last, events);
    assert Linked(LinksOf(nodes), i);
  }

  lemma PrintedEvents(
    nodes: seq<Node>, strings: bytes, parent: int, previous: int, last: int, events: seq<Event>, pretty: bool)
    requires Sound(nodes, strings, parent, previous, last, events) && parent == -1
    ensures var c := DocumentOf(nodes, strings, parent); PrintedDocument(c, pretty) == Printed(c, pretty, events)
  {
    hide Printed;
    SoundForest(nodes, strings, parent, previous, last, events);
  }

  lemma NothingWalked(
    nodes: seq<Node>, strings: bytes, parent: int, previous: int, last: int, events: seq<Event>, pretty: bool)
    requires Sound(nodes, strings, parent, previous, last, events) && nodes == []
    ensures Printed(DocumentOf(nodes, strings, parent), pretty, events) == []
  {
    SoundForest(nodes, strings, parent, previous, last, events);
  }

  /** With no element open, what has been walked is the walk of the whole forest. */
  lemma AllWalked(nodes: seq<Node>, strings: bytes, parent: int, previous: int, last: int, events: seq<Event>)
    requires Sound(nodes, strings, parent, previous, last, events) && nodes != []
    ensures Forest(LinksOf(nodes)) && NodeDepth(DocumentOf(nodes, strings, parent), 0) == 1
    ensures parent == -1 ==> events == Walk(LinksOf(nodes), 0)
  {
    SoundForest(nodes, strings, parent, previous, last, events);
    var links := LinksOf(nodes);
    assert Rooted(ParentsOf(links)) && ParentsOf(links)[0] == -1;
    assert Depth(ParentsOf(links), 0) == 1 + Depth(ParentsOf(links), -1);
    WalkVisitsAll(links);
  }
}

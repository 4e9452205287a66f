/** What the printer writes for a document, and reading it back. */
module XmlPrinting {
  import opened Bytes
  import opened XmlDocument
  import opened XmlForest
  import opened XmlParser
  import opened XmlReading
  import opened XmlRoundTrip
  import opened XmlText
  import opened Sequences

  const EMPTY := Content([], [], -1)

  /** Two texts or two comments next to each other are read as one. */
  predicate Alike(a: Tree, b: Tree) {
    (a.Words? && b.Words?) || (a.Remark? && b.Remark?)
  }

  /** No text has a text next to it, and no comment a comment, and none is empty. */
  predicate Separate(t: Tree) {
    match t
    case Branch(_, _, children) => SeparateAll(children)
    case _ => t.text != []
  }

  predicate SeparateAll(ts: seq<Tree>) {
    ts == [] || (Separate(ts[0]) && SeparateAll(ts[1..]) && (|ts| > 1 ==> !Alike(ts[0], ts[1])))
  }

  /** The tree will not be joined with what is there already. */
  predicate Stands(t: Tree, c: Content)
    requires |c.items| == |c.parents|
  {
    !(t.Words? && Merges(c, Text)) && !(t.Remark? && Merges(c, Comment))
  }

  /** A document that is being built: the last node is below the innermost open element. */
  ghost predicate Growing(c: Content) {
    && |c.items| == |c.parents| && Rooted(c.parents) && -1 <= c.parent < |c.parents|
    && OnPath(c.parents, c.parent, |c.parents| - 1)
  }

  ghost predicate Begins(c: Content, f: Content) {
    && |c.items| == |c.parents| <= |f.items| == |f.parents|
    && f.items[..|c.items|] == c.items && f.parents[..|c.parents|] == c.parents
  }

  /** The new nodes hang below the open element or below each other. */
  ghost predicate Below(c: Content, r: Content) {
    |c.items| <= |r.parents| && forall j :: |c.items| <= j < |r.parents| ==> r.parents[j] == c.parent || r.parents[j] >= |c.items|
  }

  lemma ItemAdded(c: Content, item: Item, opens: bool)
    requires Growing(c) && !Merges(c, item.kind)
    ensures var r, n := Added(c, item, opens), |c.items|;
            && r == Content(c.items + [item], c.parents + [c.parent], if opens then n else c.parent)
            && Growing(r) && Begins(c, r) && Below(c, r)
            && Walked(r.parents, r.parent) == Walked(c.parents, c.parent) + [Visit(n)]
  {
    hide Walked;
    WalkGrows(c.parents, c.parent);
    var q := c.parents + [c.parent];
    assert OnPath(q, c.parent, c.parent);
    assert OnPath(q, c.parent, |c.parents|);
  }

  lemma BelowJoins(c: Content, d: Content, e: Content)
    requires Begins(c, d) && Begins(d, e) && Below(c, d) && Below(d, e)
    requires d.parent == c.parent || d.parent >= |c.items|
    ensures Begins(c, e) && Below(c, e)
  {
    assert e.items[..|c.items|] == e.items[..|d.items|][..|c.items|];
    assert e.parents[..|c.items|] == e.parents[..|d.items|][..|c.items|];
    assert forall j :: 0 <= j < |d.parents| ==> e.parents[j] == e.parents[..|d.items|][j];
  }

  /** What a tree that stands for itself makes of a document. */
  ghost predicate Grown(c: Content, r: Content) {
    && Growing(r) && Begins(c, r) && Below(c, r) && |r.items| > |c.items| && r.parents[|c.items|] == c.parent
  }

  lemma NodeGrows(c: Content, item: Item)
    requires Growing(c) && !Merges(c, item.kind)
    ensures var r := Added(c, item, false);
            Grown(c, r) && (forall kind: Kind :: Merges(r, kind) ==> kind == item.kind && !kind.Element?)
  {
    hide Walked, Rooted, OnPath;
    ItemAdded(c, item, false);
  }

  /** An element with everything below it, once it has been closed. */
  lemma ElementGrows(c: Content, d: Content, e: Content)
    requires Growing(c) && Growing(d) && Growing(e) && Begins(c, d) && Below(c, d) && Begins(d, e) && Below(d, e)
    requires d.parent == e.parent == |c.items| == |d.items| - 1 && |e.items| > |d.items| && d.parents[|c.items|] == c.parent
    ensures var r := e.(parent := c.parent); Grown(c, r) && forall kind: Kind :: !Merges(r, kind)
  {
    var n := |c.items|;
    BelowJoins(c, d, e);
    assert e.parents[n] == e.parents[..|d.items|][n] == c.parent;
    hide OnPath;
    ParentOnPath(e.parents, n, |e.parents| - 1);
    assert e.parents[|e.parents| - 1] >= n;
  }

  lemma LastStands(t: Tree, r: Content)
    requires |r.items| == |r.parents| && t.Branch?
    requires forall kind: Kind :: !Merges(r, kind)
    ensures forall next: Tree :: !Alike(t, next) ==> Stands(next, r)
  {
  }

  /** What loading a tree that stands for itself adds. */
  lemma {:induction false} LoadGrows(t: Tree, c: Content)
    requires Growing(c) && Separate(t) && Stands(t, c)
    ensures Grown(c, Load(t, c)) && forall next: Tree :: !Alike(t, next) ==> Stands(next, Load(t, c))
    decreases t
  {
    hide Walked, Rooted, OnPath, Grown, Begins, Below;
    match t
    case Words(text) => NodeGrows(c, Item(Text, text, []));
    case Remark(text) => NodeGrows(c, Item(Comment, text, []));
    case Instruction(text) => NodeGrows(c, Item(ProcessingInstruction, text, []));
    case Branch(name, attributes, children) =>
      var item := Item(Element, name, attributes);
      ElementsStand(c, Element);
      if children == [] {
        NodeGrows(c, item);
      } else {
        var d := Added(c, item, true);
        ItemAdded(c, item, true);
        LoadAllGrows(children, d);
        ElementGrows(c, d, LoadAll(children, d));
      }
      LastStands(t, Load(t, c));
  }

  lemma {:induction false} LoadAllGrows(ts: seq<Tree>, c: Content)
    requires Growing(c) && SeparateAll(ts) && (ts != [] ==> Stands(ts[0], c))
    ensures var r := LoadAll(ts, c);
            && Growing(r) && Begins(c, r) && Below(c, r)
            && (ts != [] ==> |r.items| > |c.items| && r.parents[|c.items|] == c.parent)
    decreases ts
  {
    hide Load, Stands, Rooted, OnPath;
    if ts != [] {
      var d := Load(ts[0], c);
      LoadGrows(ts[0], c);
      LoadAllGrows(ts[1..], d);
      BelowJoins(c, d, LoadAll(ts[1..], d));
      assert LoadAll(ts[1..], d).parents[..|d.items|][|c.items|] == d.parents[|c.items|];
    }
  }

  /** Nothing that comes later hangs below the nodes from `from` up to `to`. */
  ghost predicate Settled(f: Content, from: nat, to: nat) {
    forall j :: to <= j < |f.parents| ==> !(from <= f.parents[j] < to)
  }

  /** What the walk of a document that is being built prints, once all of it is known. */
  ghost function PrintedSoFar(f: Content, pretty: bool, c: Content): bytes
    requires Rooted(c.parents)
  {
    Printed(f, pretty, Walked(c.parents, c.parent))
  }

  /** In indented output every node but the first begins a line, and so does the end tag of an element with children. */
  function Break(pretty: bool, depth: nat): bytes {
    if pretty then [CR, LF] + Tabs(depth) else []
  }

  /** A tree as it is printed inside of `depth` elements, behind its line break. */
  function ShownIn(pretty: bool, depth: nat, t: Tree): bytes
    decreases t
  {
    match t
    case Branch(name, attributes, children) =>
      NodeText(Item(Element, name, attributes), children != [])
      + if children == [] then [] else ShownAllIn(pretty, depth + 1, children) + (Break(pretty, depth) + EndTag(name))
    case _ => Shown(t)
  }

  function ShownAllIn(pretty: bool, depth: nat, ts: seq<Tree>): bytes
    decreases ts
  {
    if ts == [] then [] else Break(pretty, depth) + ShownIn(pretty, depth, ts[0]) + ShownAllIn(pretty, depth, ts[1..])
  }

  /** Without indentation that is the tree as it is shown. */
  lemma {:induction false} ShownFlat(depth: nat, t: Tree)
    ensures ShownIn(false, depth, t) == Shown(t)
    decreases t
  {
    if t.Branch? {
      ShownAllFlat(depth + 1, t.children);
      assert [] + EndTag(t.name) == EndTag(t.name);
    }
  }

  lemma {:induction false} ShownAllFlat(depth: nat, ts: seq<Tree>)
    ensures ShownAllIn(false, depth, ts) == ShownAll(ts)
    decreases ts
  {
    hide Shown;
    if ts != [] {
      ShownFlat(depth, ts[0]);
      ShownAllFlat(depth, ts[1..]);
      assert [] + Shown(ts[0]) == Shown(ts[0]);
    }
  }

  /** The first nodes have the depth they will have in the end. */
  lemma {:induction false} DepthBegins(c: Content, f: Content, i: int)
    requires Rooted(c.parents) && Rooted(f.parents) && Begins(c, f) && -1 <= i < |c.parents|
    ensures Depth(f.parents, i) == Depth(c.parents, i)
    decreases i
  {
    if i >= 0 {
      BeginsItem(c, f, i);
      DepthBegins(c, f, c.parents[i]);
    }
  }

  lemma BeginsItem(c: Content, f: Content, i: nat)
    requires Begins(c, f) && i < |c.items|
    ensures f.items[i] == c.items[i] && f.parents[i] == c.parents[i]
  {
    assert f.items[..|c.items|][i] == f.items[i] && f.parents[..|c.items|][i] == f.parents[i];
  }

  /** One more node prints its line break and its own text. */
  lemma NodePrinted(f: Content, pretty: bool, c: Content, item: Item, opens: bool)
    requires Growing(c) && !Merges(c, item.kind) && Begins(Added(c, item, opens), f) && Rooted(f.parents)
    ensures var d, n, depth := Added(c, item, opens), |c.items|, Depth(c.parents, c.parent);
            && Growing(d) && n < |f.items| == |f.parents| && f.items[n] == item
            && PrintedSoFar(f, pretty, d)
               == PrintedSoFar(f, pretty, c)
                  + ((if n == 0 then [] else Break(pretty, depth)) + NodeText(item, FirstChild(f.parents, n) >= 0))
            && Depth(d.parents, d.parent) == if opens then depth + 1 else depth
  {
    hide Walked, NodeText, FirstChild, OnPath, Tabs, Printed, PrintedEvent;
    var d, n := Added(c, item, opens), |c.items|;
    ItemAdded(c, item, opens);
    BeginsItem(d, f, n);
    BeginsTwice(c, d, f);
    DepthBegins(c, d, c.parent);
    DepthBegins(c, f, c.parent);
    assert Depth(f.parents, n) == 1 + Depth(f.parents, c.parent);
    TopLevel(c.parents, c.parent);
    VisitText(f, pretty, n, Depth(c.parents, c.parent));
    PrintedJoin(f, pretty, Walked(c.parents, c.parent), [Visit(n)]);
    PrintedOne(f, pretty, Visit(n));
    FirstLine(pretty, NodeText(item, FirstChild(f.parents, n) >= 0));
  }

  lemma FirstLine(pretty: bool, text: bytes)
    ensures [] + Tabs(0) + text == text && [] + text == text
  {
  }

  /** Closing an element that has children prints its end tag. */
  lemma EndPrinted(f: Content, pretty: bool, e: Content, parent: int)
    requires Growing(e) && Begins(e, f) && 0 <= e.parent < |e.items| - 1 && e.parents[e.parent] == parent && Rooted(f.parents)
    ensures PrintedSoFar(f, pretty, e.(parent := parent))
            == PrintedSoFar(f, pretty, e) + (Break(pretty, Depth(e.parents, parent)) + EndTag(e.items[e.parent].text))
  {
    hide Walked, OnPath, EndTag, Tabs, Printed, PrintedEvent;
    WalkEnds(e.parents, e.parent);
    BeginsItem(e, f, e.parent);
    DepthBegins(e, f, e.parent);
    LeaveText(f, pretty, e.parent, Depth(e.parents, parent));
    PrintedJoin(f, pretty, Walked(e.parents, e.parent), [Leave(e.parent)]);
    PrintedOne(f, pretty, Leave(e.parent));
  }

  lemma LeafText(item: Item, hasChild: bool)
    requires !item.kind.Element?
    ensures NodeText(item, hasChild) == NodeText(item, false)
  {
  }

  /** A node has a child in the end exactly if it had one when it was closed. */
  lemma ChildrenKnown(f: Content, n: nat, to: nat)
    requires Rooted(f.parents) && n < to <= |f.parents| && Settled(f, n, to)
    ensures to == n + 1 ==> FirstChild(f.parents, n) < 0
    ensures to > n + 1 && f.parents[n + 1] == n ==> FirstChild(f.parents, n) >= 0
  {
  }

  lemma BeginsTwice(c: Content, d: Content, f: Content)
    requires Begins(c, d) && Begins(d, f)
    ensures Begins(c, f)
  {
    assert f.items[..|c.items|] == f.items[..|d.items|][..|c.items|];
    assert f.parents[..|c.items|] == f.parents[..|d.items|][..|c.items|];
  }

  /** Of siblings, the first is settled too: the others hang beside it. */
  lemma FirstSettled(f: Content, c: Content, d: Content, e: Content)
    requires Begins(c, d) && Begins(d, e) && Below(d, e) && Begins(e, f) && c.parent == d.parent < |c.items|
    requires Settled(f, |c.items|, |e.items|)
    ensures Settled(f, |c.items|, |d.items|) && Settled(f, |d.items|, |e.items|)
  {
    forall j | |d.items| <= j < |f.parents|
      ensures !(|c.items| <= f.parents[j] < |d.items|)
    {
      if j < |e.items| {
        BeginsItem(e, f, j);
      }
    }
  }

  /** The line break before a node, unless it is the first of all. */
  function Before(pretty: bool, c: Content): bytes
    requires Rooted(c.parents) && -1 <= c.parent < |c.parents|
  {
    if c.items == [] then [] else Break(pretty, Depth(c.parents, c.parent))
  }

  /** A tree that is loaded is printed as it is shown. */
  lemma {:induction false} TreePrinted(f: Content, pretty: bool, t: Tree, c: Content)
    requires Growing(c) && Separate(t) && Stands(t, c) && Rooted(f.parents)
    requires Begins(Load(t, c), f) && Settled(f, |c.items|, |Load(t, c).items|)
    ensures Growing(Load(t, c))
    ensures PrintedSoFar(f, pretty, Load(t, c))
            == PrintedSoFar(f, pretty, c) + (Before(pretty, c) + ShownIn(pretty, Depth(c.parents, c.parent), t))
    decreases t, 1
  {
    hide PrintedSoFar, Growing, Begins, Below, Settled, NodeText, Rooted, Break, Depth;
    LoadGrows(t, c);
    assert Growing(Load(t, c));
    match t
    case Words(text) =>
      NodePrinted(f, pretty, c, Item(Text, text, []), false);
      LeafText(Item(Text, text, []), FirstChild(f.parents, |c.items|) >= 0);
    case Remark(text) =>
      NodePrinted(f, pretty, c, Item(Comment, text, []), false);
      LeafText(Item(Comment, text, []), FirstChild(f.parents, |c.items|) >= 0);
    case Instruction(text) =>
      assert |c.items| == |c.parents| by {
        SameLength(c);
      }
      NodePrinted(f, pretty, c, Item(ProcessingInstruction, text, []), false);
      LeafText(Item(ProcessingInstruction, text, []), FirstChild(f.parents, |c.items|) >= 0);
    case Branch(name, attributes, children) =>
      var item, n := Item(Element, name, attributes), |c.items|;
      assert |c.items| == |c.parents| by {
        SameLength(c);
      }
      ElementsStand(c, Element);
      if children == [] {
        NodePrinted(f, pretty, c, item, false);
        ChildrenKnown(f, n, n + 1);
        var text := NodeText(item, false);
        assert text + [] == text;
      } else {
        ElementPrinted(f, pretty, t, c);
      }
  }

  lemma SameLength(c: Content)
    requires Growing(c)
    ensures |c.items| == |c.parents|
  {
  }

  /** The pieces of an element in the order in which they are written. */
  lemma ShownBranch(so: bytes, line: bytes, tag: bytes, inner: bytes, end: bytes, a: bytes, b: bytes, c: bytes)
    requires a == so + (line + tag) && b == a + inner && c == b + end
    ensures c == so + (line + (tag + (inner + end)))
  {
  }

  lemma SettledInside(f: Content, from: nat, to: nat)
    requires Settled(f, from, to)
    ensures Settled(f, from + 1, to)
  {
  }

  lemma BranchIs(pretty: bool, t: Tree, c: Content)
    requires |c.items| == |c.parents| && t.Branch? && t.children != []
    ensures Load(t, c) == LoadAll(t.children, Added(c, Item(Element, t.name, t.attributes), true)).(parent := c.parent)
    ensures forall depth: nat ::
              ShownIn(pretty, depth, t)
              == NodeText(Item(Element, t.name, t.attributes), true)
                 + (ShownAllIn(pretty, depth + 1, t.children) + (Break(pretty, depth) + EndTag(t.name)))
  {
    hide NodeText, Break, EndTag, ShownAllIn;
  }

  /** An element with children is opened, filled and closed. */
  lemma ElementFilled(f: Content, t: Tree, c: Content)
    requires Growing(c) && t.Branch? && t.children != [] && Separate(t) && Rooted(f.parents)
    requires Begins(Load(t, c), f) && Settled(f, |c.items|, |Load(t, c).items|)
    ensures |c.items| == |c.parents|
    ensures var item, n := Item(Element, t.name, t.attributes), |c.items|;
            var d := Added(c, item, true);
            var e := LoadAll(t.children, d);
            && !Merges(c, Element) && Begins(d, f) && Growing(d) && Stands(t.children[0], d) && d.items != []
            && Begins(e, f) && Growing(e) && |d.items| == n + 1 && d.parent == n && Settled(f, n + 1, |e.items|)
            && FirstChild(f.parents, n) >= 0 && e.parent == n < |e.items| - 1
            && e.parents[n] == c.parent && e.items[n] == item && Load(t, c) == e.(parent := c.parent)
            && Depth(e.parents, c.parent) == Depth(c.parents, c.parent) && Growing(Load(t, c))
  {
    hide Rooted, OnPath, Settled, Below, LoadAll, Depth, FirstChild;
    var item, n := Item(Element, t.name, t.attributes), |c.items|;
    var d := Added(c, item, true);
    var e := LoadAll(t.children, d);
    ItemAdded(c, item, true);
    hide Added;
    LoadAllGrows(t.children, d);
    BeginsTwice(d, e, f);
    SettledInside(f, n, |e.items|);
    BeginsItem(d, e, n);
    BeginsItem(e, f, n + 1);
    ChildrenKnown(f, n, |e.items|);
    ElementGrows(c, d, e);
    BeginsTwice(c, d, e);
    DepthBegins(c, e, c.parent);
  }

  lemma {:induction false} ElementPrinted(f: Content, pretty: bool, t: Tree, c: Content)
    requires Growing(c) && t.Branch? && t.children != [] && Separate(t) && Rooted(f.parents)
    requires Begins(Load(t, c), f) && Settled(f, |c.items|, |Load(t, c).items|)
    ensures Growing(Load(t, c))
    ensures PrintedSoFar(f, pretty, Load(t, c))
            == PrintedSoFar(f, pretty, c) + (Before(pretty, c) + ShownIn(pretty, Depth(c.parents, c.parent), t))
    decreases t, 0
  {
    hide PrintedSoFar, NodeText, Rooted, OnPath, EndTag, Settled, Begins, Shown, ShownIn, ShownAllIn, Load, LoadAll;
    hide Break, Depth, FirstChild, Stands;
    ElementFilled(f, t, c);
    BranchIs(pretty, t, c);
    var item, depth := Item(Element, t.name, t.attributes), Depth(c.parents, c.parent);
    var d := Added(c, item, true);
    var e := LoadAll(t.children, d);
    NodePrinted(f, pretty, c, item, true);
    hide Added;
    TreesPrinted(f, pretty, t.children, d);
    EndPrinted(f, pretty, e, c.parent);
    ShownBranch(PrintedSoFar(f, pretty, c), Before(pretty, c), NodeText(item, true),
                ShownAllIn(pretty, depth + 1, t.children), Break(pretty, depth) + EndTag(t.name),
                PrintedSoFar(f, pretty, d), PrintedSoFar(f, pretty, e), PrintedSoFar(f, pretty, e.(parent := c.parent)));
  }

  lemma {:induction false} TreesPrinted(f: Content, pretty: bool, ts: seq<Tree>, c: Content)
    requires Growing(c) && SeparateAll(ts) && (ts != [] ==> Stands(ts[0], c)) && Rooted(f.parents) && c.items != []
    requires Begins(LoadAll(ts, c), f) && Settled(f, |c.items|, |LoadAll(ts, c).items|)
    ensures Growing(LoadAll(ts, c))
    ensures PrintedSoFar(f, pretty, LoadAll(ts, c))
            == PrintedSoFar(f, pretty, c) + ShownAllIn(pretty, Depth(c.parents, c.parent), ts)
    decreases ts, 2
  {
    hide PrintedSoFar, Settled, Begins, Below, OnPath, Rooted, Load, ShownIn, Stands, Break, Depth;
    var so := PrintedSoFar(f, pretty, c);
    if ts == [] {
      assert so + [] == so;
    } else {
      var d := Load(ts[0], c);
      var e := LoadAll(ts[1..], d);
      LoadGrows(ts[0], c);
      LoadAllGrows(ts[1..], d);
      BeginsTwice(d, e, f);
      FirstSettled(f, c, d, e);
      TreePrinted(f, pretty, ts[0], c);
      GrowingRooted(c);
      GrowingRooted(d);
      DepthBegins(c, d, c.parent);
      TreesPrinted(f, pretty, ts[1..], d);
      var depth := Depth(c.parents, c.parent);
      Associative(so, Break(pretty, depth) + ShownIn(pretty, depth, ts[0]), ShownAllIn(pretty, depth, ts[1..]));
    }
  }

  lemma GrowingRooted(c: Content)
    requires Growing(c)
    ensures Rooted(c.parents) && -1 <= c.parent < |c.parents|
  {
  }

  /** What the printer writes for a tree without neighbours that would be joined is the tree as it is shown. */
  lemma LoadedIsShown(pretty: bool, t: Tree)
    requires Separate(t) && t.Branch?
    ensures PrintedDocument(Load(t, EMPTY), pretty) == ShownIn(pretty, 0, t)
  {
    hide ShownIn, Load, Printed;
    var r := Load(t, EMPTY);
    LoadGrows(t, EMPTY);
    TreePrinted(r, pretty, t, EMPTY);
    assert PrintedSoFar(r, pretty, EMPTY) == [] by {
      PrintedOne(r, pretty, Visit(0));
    }
    assert [] + ([] + ShownIn(pretty, 0, t)) == ShownIn(pretty, 0, t);
  }

  function Joint(a: Tree, b: Tree): Tree
    requires Alike(a, b)
  {
    if a.Words? then Words(a.text + b.text) else Remark(a.text + b.text)
  }

  /** A text of which nothing arrives. */
  predicate Void(t: Tree) {
    !t.Branch? && t.text == []
  }

  /** The tree that is loaded: neighbours of one kind have become one, and what is empty has gone. */
  function Merged(t: Tree): (r: Tree)
    ensures r.Branch? == t.Branch? && (!t.Branch? ==> r == t)
    decreases t
  {
    match t
    case Branch(name, attributes, children) => Branch(name, attributes, MergedAll(children))
    case _ => t
  }

  function MergedAll(ts: seq<Tree>): (r: seq<Tree>)
    decreases ts
  {
    if ts == [] then []
    else
      var first, rest := Merged(ts[0]), MergedAll(ts[1..]);
      if Void(first) then rest
      else if rest != [] && Alike(first, rest[0]) then [Joint(first, rest[0])] + rest[1..]
      else [first] + rest
  }

  lemma SeparateFirst(t: Tree, ts: seq<Tree>)
    requires Separate(t) && SeparateAll(ts) && (ts != [] ==> !Alike(t, ts[0]))
    ensures SeparateAll([t] + ts)
  {
    assert ([t] + ts)[1..] == ts;
  }

  lemma {:induction false} MergedIsSeparate(t: Tree)
    requires !Void(t)
    ensures Separate(Merged(t))
    decreases t
  {
    if t.Branch? {
      MergedAllSeparate(t.children);
    }
  }

  lemma {:induction false} MergedAllSeparate(ts: seq<Tree>)
    ensures SeparateAll(MergedAll(ts))
    decreases ts
  {
    if ts != [] {
      var first, rest := Merged(ts[0]), MergedAll(ts[1..]);
      MergedAllSeparate(ts[1..]);
      if Void(ts[0]) {
        return;
      }
      MergedIsSeparate(ts[0]);
      if rest != [] && Alike(first, rest[0]) {
        SeparateFirst(Joint(first, rest[0]), rest[1..]);
      } else {
        SeparateFirst(first, rest);
      }
    }
  }

  lemma LoadFirst(t: Tree, ts: seq<Tree>, c: Content)
    requires |c.items| == |c.parents|
    ensures LoadAll([t] + ts, c) == LoadAll(ts, Load(t, c))
  {
    assert ([t] + ts)[1..] == ts;
  }

  /** Joining neighbours beforehand makes no difference to what is loaded. */
  lemma {:induction false} LoadMerged(t: Tree, c: Content)
    requires |c.items| == |c.parents|
    ensures Load(Merged(t), c) == Load(t, c)
    decreases t
  {
    if t.Branch? {
      var item := Item(Element, t.name, t.attributes);
      LoadMergedAll(t.children, Added(c, item, true));
      OpenedAndClosed(c, item);
    }
  }

  /** An element that is opened and closed at once is an empty one. */
  lemma OpenedAndClosed(c: Content, item: Item)
    requires |c.items| == |c.parents| && item.kind.Element?
    ensures Added(c, item, true).(parent := c.parent) == Added(c, item, false)
    ensures LoadAll([], Added(c, item, true)) == Added(c, item, true)
  {
  }

  lemma {:induction false} LoadMergedAll(ts: seq<Tree>, c: Content)
    requires |c.items| == |c.parents|
    ensures LoadAll(MergedAll(ts), c) == LoadAll(ts, c)
    decreases ts
  {
    if ts != [] {
      hide Pending;
      var first, rest := Merged(ts[0]), MergedAll(ts[1..]);
      LoadMerged(ts[0], c);
      LoadMergedAll(ts[1..], Load(ts[0], c));
      if Void(first) {
        NothingLoaded(first, c);
      } else if rest != [] && Alike(first, rest[0]) {
        PendingTwice(c, if first.Words? then Text else Comment, first.text, rest[0].text);
        LoadFirst(Joint(first, rest[0]), rest[1..], c);
        LoadFirst(rest[0], rest[1..], Load(first, c));
        assert [rest[0]] + rest[1..] == rest;
      } else {
        LoadFirst(first, rest, c);
      }
    }
  }

  lemma NothingLoaded(t: Tree, c: Content)
    requires |c.items| == |c.parents| && Void(t)
    ensures Load(t, c) == c
  {
  }

  /**
   * A document read from a tree is printed as that tree with the neighbours of one kind joined; reading that again gives
   * the document with every text as it arrives, and so the same document if all of them arrive as they are.
   */
  lemma PrintedReadBack(t: Tree)
    requires t.Branch? && Legal(Merged(t))
    ensures var c := Load(t, EMPTY);
            && PrintedDocument(c, false) == Shown(Merged(t))
            && var r := Run(Session(Initial(), EMPTY), PrintedDocument(c, false));
               r.Going? && r.session.content == Load(Arrived(Merged(t)), EMPTY) && r.session.machine.state == 45
    ensures Arrived(Merged(t)) == Merged(t) ==> Load(Arrived(Merged(t)), EMPTY) == Load(t, EMPTY)
  {
    hide Legal, Shown, Load, Run, Separate, Arrived;
    LoadMerged(t, EMPTY);
    MergedIsSeparate(t);
    LoadedIsShown(false, Merged(t));
    ShownFlat(0, Merged(t));
    var s := ParsePrinted(Merged(t));
  }
}

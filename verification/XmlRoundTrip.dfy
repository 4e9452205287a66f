/** Parsing what the printer writes for a tree builds that tree. */
module XmlRoundTrip {
  import opened Bytes
  import opened XmlDocument
  import opened XmlMachine
  import opened XmlMarkup
  import opened XmlParser
  import opened XmlReading
  import opened XmlText
  import HttpNames

  datatype Tree =
    | Branch(name: bytes, attributes: seq<Attribute>, children: seq<Tree>)
    | Words(text: bytes)
    | Remark(text: bytes)
    | Instruction(text: bytes)

  /** The printed form, put together from what the printer writes for single nodes. */
  function Shown(t: Tree): bytes {
    match t
    case Branch(name, attributes, children) =>
      NodeText(Item(Element, name, attributes), children != [])
      + if children == [] then [] else ShownAll(children) + EndTag(name)
    case Words(text) => NodeText(Item(Text, text, []), false)
    case Remark(text) => NodeText(Item(Comment, text, []), false)
    case Instruction(text) => NodeText(Item(ProcessingInstruction, text, []), false)
  }

  function ShownAll(ts: seq<Tree>): bytes {
    if ts == [] then [] else Shown(ts[0]) + ShownAll(ts[1..])
  }

  /** The document with the tree added below its innermost open element; an empty text adds nothing. */
  function Load(t: Tree, c: Content): (r: Content)
    requires |c.items| == |c.parents|
    ensures |r.items| == |r.parents|
    ensures r.parent == c.parent
    decreases t
  {
    match t
    case Branch(name, attributes, children) =>
      var item := Item(Element, name, attributes);
      if children == [] then Added(c, item, false)
      else
        var inner := LoadAll(children, Added(c, item, true));
        inner.(parent := c.parent)
    case Words(text) => Pending(c, Text, text)
    case Remark(text) => Pending(c, Comment, text)
    case Instruction(text) => Pending(c, ProcessingInstruction, text)
  }

  function LoadAll(ts: seq<Tree>, c: Content): (r: Content)
    requires |c.items| == |c.parents|
    ensures |r.items| == |r.parents|
    ensures r.parent == c.parent
    decreases ts
  {
    if ts == [] then c else LoadAll(ts[1..], Load(ts[0], c))
  }

  /**
   * What the parser takes: names of up to 256 bytes, values of up to a buffer that lack one kind of quotes, texts
   * without markup or NUL and not next to each other, comments and processing instructions that do not contain their
   * ending, and the latter no longer than a buffer. There may be any white space in all of them.
   */
  predicate Legal(t: Tree) {
    match t
    case Branch(name, attributes, children) =>
      IsName(name) && (forall a <- attributes :: PlainAttribute(a)) && LegalAll(children)
    case Words(text) => LT !in text && 0 !in text
    case Remark(text) => AllChars(text) && !Occurs(Ascii("-->"), Padded(text))
    case Instruction(text) =>
      AllChars(text) && !Occurs(Ascii("?>"), text) && |Spaced(WordsOf(text))| + 2 <= TEXT_SIZE
  }

  predicate LegalAll(ts: seq<Tree>) {
    ts == [] || (Legal(ts[0]) && LegalAll(ts[1..]) && (|ts| > 1 ==> !(ts[0].Words? && ts[1].Words?)))
  }

  /** A comment is printed with a space on both sides. */
  function Padded(text: bytes): bytes {
    [SPACE] + text + [SPACE]
  }

  /** The tree as the parser reads it: see `XmlText.KeptWords` for what becomes of a text. */
  function Arrived(t: Tree): Tree
    decreases t
  {
    match t
    case Branch(name, attributes, children) => Branch(name, attributes, ArrivedAll(children))
    case Words(text) => Words(Kept(Characters, text))
    case Remark(text) => Remark(Kept(Remarks, Padded(text)))
    case Instruction(text) => Instruction(Kept(Instructions, text))
  }

  function ArrivedAll(ts: seq<Tree>): (r: seq<Tree>)
    ensures |r| == |ts|
    decreases ts
  {
    if ts == [] then [] else [Arrived(ts[0])] + ArrivedAll(ts[1..])
  }

  predicate PlainAttribute(attribute: Attribute) {
    && IsName(attribute.name) && |attribute.value| <= 4096 && AllChars(attribute.value)
    && (DOUBLE_QUOTE !in attribute.value || SINGLE_QUOTE !in attribute.value)
  }

  /** The quotes that the printer puts around a value. */
  function QuotesOf(value: bytes): byte {
    if DOUBLE_QUOTE in value then SINGLE_QUOTE else DOUBLE_QUOTE
  }

  /** An attribute as it is printed. */
  function SourceOf(a: Attribute): Written {
    Written([SPACE], a.name, [], [], QuotesOf(a.value), a.value)
  }

  function SourcesOf(attributes: seq<Attribute>): (ws: seq<Written>)
    ensures |ws| == |attributes|
  {
    seq(|attributes|, i requires 0 <= i < |attributes| => SourceOf(attributes[i]))
  }

  /** A tree as markup, in the form in which it is printed. */
  function Source(t: Tree): Markup
    decreases t
  {
    match t
    case Branch(name, attributes, children) =>
      if children == [] then Empty(name, SourcesOf(attributes), [])
      else Tagged(name, SourcesOf(attributes), [], SourceAll(children), name, [])
    case Words(text) => Plain(text)
    case Remark(text) => Note(Padded(text))
    case Instruction(text) => Order(text)
  }

  function SourceAll(ts: seq<Tree>): (ms: seq<Markup>)
    ensures |ms| == |ts|
    decreases ts
  {
    if ts == [] then [] else [Source(ts[0])] + SourceAll(ts[1..])
  }

  lemma SourceIsWritten(a: Attribute)
    requires PlainAttribute(a)
    ensures IsWritten(SourceOf(a)) && 0 !in a.name && 0 !in a.value
  {
    NameHasNoNul(a.name);
    hide IsName;
  }

  lemma SourcesAreWritten(attributes: seq<Attribute>)
    requires forall a <- attributes :: PlainAttribute(a)
    ensures AreWritten(SourcesOf(attributes)) && AttributesOf(SourcesOf(attributes)) == attributes
  {
    hide IsWritten, PlainAttribute;
    forall i | 0 <= i < |attributes|
      ensures IsWritten(SourcesOf(attributes)[i])
    {
      SourceIsWritten(attributes[i]);
    }
  }

  lemma {:induction false} WrittenLast(ws: seq<Written>, w: Written)
    ensures WrittenAll(ws + [w]) == WrittenAll(ws) + WrittenText(w)
    decreases |ws|
  {
    hide WrittenText;
    if ws == [] {
      assert ws + [w] == [w] && |[w][1..]| == 0;
    } else {
      assert (ws + [w])[1..] == ws[1..] + [w];
      WrittenLast(ws[1..], w);
    }
  }

  lemma LastAttribute(attributes: seq<Attribute>)
    requires attributes != []
    ensures var a := attributes[|attributes| - 1];
            AttributesText(attributes)
            == AttributesText(attributes[..|attributes| - 1])
               + ([SPACE] + HttpNames.UpToNul(a.name) + Ascii("=") + [QuotesOf(a.value)] + HttpNames.UpToNul(a.value)
                  + [QuotesOf(a.value)])
  {
  }

  lemma SourceText(a: Attribute)
    ensures WrittenText(SourceOf(a)) == [SPACE] + a.name + Ascii("=") + [QuotesOf(a.value)] + a.value + [QuotesOf(a.value)]
  {
    assert Ascii("=") == [EQ];
  }

  /** Attributes are printed as that markup. */
  lemma {:induction false} AttributesShown(attributes: seq<Attribute>)
    requires forall a <- attributes :: PlainAttribute(a)
    ensures AttributesText(attributes) == WrittenAll(SourcesOf(attributes))
    decreases |attributes|
  {
    hide PlainAttribute, WrittenText, Ascii;
    if attributes != [] {
      var n := |attributes| - 1;
      var a := attributes[n];
      AttributesShown(attributes[..n]);
      SourceIsWritten(a);
      NoNul(a.name);
      NoNul(a.value);
      LastAttribute(attributes);
      SourceText(a);
      WrittenLast(SourcesOf(attributes[..n]), SourceOf(a));
      assert SourcesOf(attributes) == SourcesOf(attributes[..n]) + [SourceOf(a)];
    }
  }

  lemma PrintedLiteralsAre()
    ensures Ascii("<!-- ") == Ascii("<") + Ascii("!--") + [SPACE] && Ascii(" -->") == [SPACE] + Ascii("-->")
    ensures Ascii("<?") == Ascii("<") + Ascii("?") && Ascii("</") == Ascii("<") + Ascii("/")
  {
  }

  lemma NodeShown(item: Item, hasChild: bool)
    requires 0 !in item.text
    ensures NodeText(item, hasChild) == NodeBody(item.kind, item.text, AttributesText(item.attributes), hasChild)
    ensures HttpNames.UpToNul(item.text) == item.text
  {
    NoNul(item.text);
  }

  lemma RemarkShown(text: bytes)
    requires AllChars(text)
    ensures Shown(Remark(text)) == TextOf(Note(Padded(text)))
  {
    NodeShown(Item(Comment, text, []), false);
    PrintedLiteralsAre();
    hide Ascii;
    RemarkPieces(Ascii("<"), Ascii("!--"), text, Ascii("-->"));
  }

  lemma InstructionShown(text: bytes)
    requires AllChars(text)
    ensures Shown(Instruction(text)) == TextOf(Order(text))
  {
    hide Ascii;
    NodeShown(Item(ProcessingInstruction, text, []), false);
    PrintedLiteralsAre();
    InstructionPieces(Ascii("<"), Ascii("?"), text, Ascii("?>"));
  }

  lemma InstructionPieces(angle: bytes, open: bytes, text: bytes, close: bytes)
    ensures angle + open + text + close == angle + (open + (text + close))
  {
  }

  lemma RemarkPieces(angle: bytes, open: bytes, text: bytes, close: bytes)
    ensures angle + open + [SPACE] + text + ([SPACE] + close) == angle + (open + (Padded(text) + close))
  {
  }

  lemma BranchShown(t: Tree)
    requires t.Branch? && IsName(t.name) && forall a <- t.attributes :: PlainAttribute(a)
    ensures var head := t.name + WrittenAll(SourcesOf(t.attributes));
            Shown(t)
            == if t.children == [] then Ascii("<") + (head + [] + Ascii("/>"))
               else Ascii("<") + (head + [] + Ascii(">") + ShownAll(t.children) + Ascii("<") + (Ascii("/") + t.name + [] + Ascii(">")))
  {
    NameHasNoNul(t.name);
    NodeShown(Item(Element, t.name, t.attributes), t.children != []);
    AttributesShown(t.attributes);
    PrintedLiteralsAre();
    NoNul(t.name);
    assert Shown(t) == NodeText(Item(Element, t.name, t.attributes), t.children != [])
                       + if t.children == [] then [] else ShownAll(t.children) + EndTag(t.name);
    hide Shown, ShownAll, WrittenAll, AttributesText, Ascii, IsName, HttpNames.UpToNul, PlainAttribute;
    BranchPieces(Ascii("<"), t.name, WrittenAll(SourcesOf(t.attributes)), Ascii(">"), ShownAll(t.children), Ascii("/"), Ascii("/>"));
  }

  lemma BranchPieces(angle: bytes, name: bytes, attributes: bytes, close: bytes, inner: bytes, slash: bytes, empty: bytes)
    ensures angle + name + attributes + empty + [] == angle + (name + attributes + [] + empty)
    ensures angle + name + attributes + close + (inner + (angle + slash + name + close))
            == angle + (name + attributes + [] + close + inner + angle + (slash + name + [] + close))
  {
  }

  /** A tree is printed as its markup. */
  lemma {:induction false} ShownIsSource(t: Tree)
    requires Legal(t)
    ensures Shown(t) == TextOf(Source(t))
    decreases t
  {
    hide Ascii, WrittenAll, IsName, PlainAttribute, Occurs;
    match t
    case Branch(name, attributes, children) =>
      hide Shown;
      BranchShown(t);
      AllShownAreSource(children);
    case Words(text) => NodeShown(Item(Text, text, []), false);
    case Remark(text) => RemarkShown(text);
    case Instruction(text) => InstructionShown(text);
  }

  lemma {:induction false} AllShownAreSource(ts: seq<Tree>)
    requires LegalAll(ts)
    ensures ShownAll(ts) == TextOfAll(SourceAll(ts))
    decreases ts
  {
    hide Shown, TextOf, Source, Legal;
    if ts != [] {
      ShownIsSource(ts[0]);
      AllShownAreSource(ts[1..]);
      assert ([Source(ts[0])] + SourceAll(ts[1..]))[1..] == SourceAll(ts[1..]);
    }
  }

  lemma {:induction false} SourceIsMarkup(t: Tree)
    requires Legal(t)
    ensures IsMarkup(Source(t))
    decreases t
  {
    hide Occurs, Ascii, IsName, PlainAttribute, AreWritten;
    match t
    case Branch(name, attributes, children) =>
      SourcesAreWritten(attributes);
      AllSourceAreMarkup(children);
    case _ =>
  }

  lemma {:induction false} AllSourceAreMarkup(ts: seq<Tree>)
    requires LegalAll(ts)
    ensures AreMarkup(SourceAll(ts))
    decreases ts
  {
    hide Legal, IsMarkup, Source;
    if ts != [] {
      SourceIsMarkup(ts[0]);
      AllSourceAreMarkup(ts[1..]);
      assert ([Source(ts[0])] + SourceAll(ts[1..]))[1..] == SourceAll(ts[1..]);
    }
  }

  lemma {:induction false} SourceContents(t: Tree, level: Level, c: Content)
    requires Legal(t) && |c.items| == |c.parents| && (t.Words? ==> level == FRESH)
    ensures Contents(Source(t), level, c) == Load(Arrived(t), c)
    ensures !t.Words? ==> LevelAfter(Source(t), level) == FRESH
    decreases t
  {
    match t
    case Branch(name, attributes, children) =>
      hide IsName, PlainAttribute, Added, AreWritten;
      SourcesAreWritten(attributes);
      if children != [] {
        AllSourceContents(children, FRESH, Added(c, Item(Element, name, attributes), true));
      }
    case Words(text) => FreshText(text, c);
    case Instruction(text) =>
      hide AddedAll, Layout, Pending;
      ShortInstruction(c, Instructions, text);
      ShortKept(Instructions, text);
      KeptWords(Instructions, text);
    case _ =>
  }

  lemma {:induction false} AllSourceContents(ts: seq<Tree>, level: Level, c: Content)
    requires LegalAll(ts) && |c.items| == |c.parents| && (ts != [] && ts[0].Words? ==> level == FRESH)
    ensures ContentsAll(SourceAll(ts), level, c) == LoadAll(ArrivedAll(ts), c)
    decreases ts
  {
    hide Legal, Contents, Load, Source, Arrived, LevelAfter;
    if ts != [] {
      SourceContents(ts[0], level, c);
      AllSourceContents(ts[1..], LevelAfter(Source(ts[0]), level), Load(Arrived(ts[0]), c));
      assert ([Source(ts[0])] + SourceAll(ts[1..]))[1..] == SourceAll(ts[1..]);
      assert ([Arrived(ts[0])] + ArrivedAll(ts[1..]))[1..] == ArrivedAll(ts[1..]);
    }
  }

  /**
   * Parsing the printed form of a tree gives its content, with every text as it arrives, and the input may end there.
   */
  lemma ParsePrinted(t: Tree) returns (s: Session)
    requires t.Branch? && Legal(t)
    ensures Run(Session(Initial(), Content([], [], -1)), Shown(t)) == Going(s)
    ensures s.content == Load(Arrived(t), Content([], [], -1)) && s.machine.state == 45
  {
    hide Legal, IsMarkup, Contents, TextOf, Shown, Load, Arrived;
    ShownIsSource(t);
    SourceIsMarkup(t);
    SourceContents(t, FRESH, Content([], [], -1));
    s := DocumentRead(Markups([], Source(t), []));
    assert [] + TextOf(Source(t)) + [] == TextOf(Source(t));
  }
}

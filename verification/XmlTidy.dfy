/** Documents that survive being written and read again, on one line or indented. */
module XmlTidy {
  import opened Bytes
  import opened XmlDocument
  import opened XmlMachine
  import opened XmlMarkup
  import opened XmlParser
  import opened XmlPrinting
  import opened XmlReading
  import opened XmlRoundTrip
  import opened XmlText

  /** Every text consists of words with single spaces between them, for all of which there is room. */
  predicate Tidy(t: Tree) {
    match t
    case Branch(_, _, children) => TidyAll(children)
    case Words(text) => text == Spaced(WordsOf(text)) && Complete(Characters, text)
    case Remark(text) => text == Spaced(WordsOf(text)) && Complete(Remarks, Padded(text))
    case Instruction(text) => text == Spaced(WordsOf(text)) && Complete(Instructions, text)
  }

  predicate TidyAll(ts: seq<Tree>) {
    ts == [] || (Tidy(ts[0]) && TidyAll(ts[1..]))
  }

  /** A tree arrives as it is if and only if it is tidy. */
  lemma {:induction false} ArrivesIff(t: Tree)
    ensures Arrived(t) == t <==> Tidy(t)
    decreases t
  {
    hide Kept, Complete;
    match t
    case Branch(_, _, children) => AllArriveIff(children);
    case Words(text) => KeptAsIs(Characters, text, text);
    case Remark(text) => KeptAsIs(Remarks, Padded(text), text);
    case Instruction(text) => KeptAsIs(Instructions, text, text);
  }

  lemma {:induction false} AllArriveIff(ts: seq<Tree>)
    ensures ArrivedAll(ts) == ts <==> TidyAll(ts)
    decreases ts
  {
    hide Arrived, Tidy;
    if ts != [] {
      ArrivesIff(ts[0]);
      AllArriveIff(ts[1..]);
      assert ts == [ts[0]] + ts[1..];
    }
  }

  /** The white space of indented output as text of its own, and together with the texts beside it. */
  function Indented(depth: nat, t: Tree): Tree
    decreases t
  {
    match t
    case Branch(name, attributes, children) =>
      if children == [] then t else Branch(name, attributes, IndentedAll(depth + 1, children, []))
    case _ => t
  }

  /** The children from some point on, behind a text. */
  function IndentedAll(depth: nat, ts: seq<Tree>, text: bytes): (r: seq<Tree>)
    requires depth > 0
    ensures r != []
    decreases ts
  {
    if ts == [] then [Words(Line(depth, text) + Break(true, depth - 1))]
    else if ts[0].Words? then IndentedAll(depth, ts[1..], if text == [] then ts[0].text else text + Line(depth, ts[0].text))
    else [Words(Line(depth, text) + Break(true, depth)), Indented(depth, ts[0])] + IndentedAll(depth, ts[1..], [])
  }

  /** A text on a line of its own. */
  function Line(depth: nat, text: bytes): bytes {
    if text == [] then [] else Break(true, depth) + text
  }

  lemma BreakIs(depth: nat)
    ensures Blank(Break(true, depth)) && LT !in Break(true, depth) && 0 !in Break(true, depth)
    ensures Break(true, depth)[..2] == Ascii("\r\n") && |Break(true, depth)| == depth + 2
    ensures forall i :: 2 <= i < depth + 2 ==> Break(true, depth)[i] as char == '\t'
  {
  }

  lemma LineIs(depth: nat, text: bytes)
    requires LT !in text && 0 !in text
    ensures LT !in Line(depth, text) && 0 !in Line(depth, text)
  {
    BreakIs(depth);
    hide Break;
  }

  lemma WordsText(text: bytes)
    requires 0 !in text
    ensures Shown(Words(text)) == text
  {
    NoNul(text);
  }

  /** Indented output is what is shown of the tree with that white space in it. */
  lemma {:induction false} ShownIndented(depth: nat, t: Tree)
    requires Legal(t) && Separate(t)
    ensures Shown(Indented(depth, t)) == ShownIn(true, depth, t)
    decreases t
  {
    hide NodeText, EndTag, Break;
    if t.Branch? && t.children != [] {
      AllShownIndented(depth + 1, t.children, []);
      var tag, inner := NodeText(Item(Element, t.name, t.attributes), true), ShownAllIn(true, depth + 1, t.children);
      assert [] + inner + Break(true, depth) + EndTag(t.name) == inner + (Break(true, depth) + EndTag(t.name));
    }
  }

  lemma {:induction false} AllShownIndented(depth: nat, ts: seq<Tree>, text: bytes)
    requires depth > 0 && LegalAll(ts) && SeparateAll(ts) && 0 !in text && LT !in text
    requires ts != [] && ts[0].Words? ==> text == []
    ensures ShownAll(IndentedAll(depth, ts, text))
            == Line(depth, text) + ShownAllIn(true, depth, ts) + Break(true, depth - 1)
    decreases ts
  {
    BreakIs(depth);
    BreakIs(depth - 1);
    LineIs(depth, text);
    var line, break_, end := Line(depth, text), Break(true, depth), Break(true, depth - 1);
    if ts == [] {
      hide Break, Shown, Line;
      WordsText(line + end);
      OneShown(Words(line + end));
      assert line + [] == line;
    } else if ts[0].Words? {
      var more := ts[0].text;
      AllShownIndented(depth, ts[1..], more);
      WordsText(more);
      hide Break, Shown;
      WordsParts(break_, more, ShownAllIn(true, depth, ts[1..]), end);
    } else {
      hide Break, Shown, Indented, Legal, ShownIn, Line;
      WordsText(line + break_);
      ShownIndented(depth, ts[0]);
      AllShownIndented(depth, ts[1..], []);
      TwoShown(Words(line + break_), Indented(depth, ts[0]), IndentedAll(depth, ts[1..], []));
      NoLine(depth);
      OtherParts(line, break_, ShownIn(true, depth, ts[0]), ShownAllIn(true, depth, ts[1..]), end);
    }
  }

  lemma NoLine(depth: nat)
    ensures Line(depth, []) == []
  {
  }

  lemma OneShown(t: Tree)
    ensures ShownAll([t]) == Shown(t)
  {
    hide Shown;
    assert |[t][1..]| == 0;
  }

  lemma TwoShown(a: Tree, b: Tree, ts: seq<Tree>)
    ensures ShownAll([a, b] + ts) == Shown(a) + (Shown(b) + ShownAll(ts))
  {
    hide Shown;
    assert ([a, b] + ts)[1..] == [b] + ts && ([b] + ts)[1..] == ts;
  }

  lemma WordsParts(line: bytes, text: bytes, rest: bytes, end: bytes)
    ensures line + text + rest + end == [] + (line + text + rest) + end
  {
  }

  lemma OtherParts(text: bytes, line: bytes, first: bytes, rest: bytes, end: bytes)
    ensures text + line + (first + ([] + rest + end)) == text + (line + first + rest) + end
  {
  }

  /** The tree with the white space in it is one that the parser takes. */
  lemma {:induction false} LegalIndented(depth: nat, t: Tree)
    requires Legal(t)
    ensures Legal(Indented(depth, t)) && Indented(depth, t).Words? == t.Words?
    decreases t
  {
    if t.Branch? && t.children != [] {
      AllLegalIndented(depth + 1, t.children, []);
    }
  }

  lemma {:induction false} AllLegalIndented(depth: nat, ts: seq<Tree>, text: bytes)
    requires depth > 0 && LegalAll(ts) && 0 !in text && LT !in text && (ts != [] && ts[0].Words? ==> text == [])
    ensures var r := IndentedAll(depth, ts, text); LegalAll(r) && r[0].Words?
    decreases ts
  {
    BreakIs(depth);
    BreakIs(depth - 1);
    LineIs(depth, text);
    hide Break, Line, Spaced, WordsOf;
    if ts == [] {
      assert |IndentedAll(depth, ts, text)[1..]| == 0;
    } else if ts[0].Words? {
      AllLegalIndented(depth, ts[1..], ts[0].text);
    } else {
      LegalIndented(depth, ts[0]);
      AllLegalIndented(depth, ts[1..], []);
      LegalTwo(Words(Line(depth, text) + Break(true, depth)), Indented(depth, ts[0]), IndentedAll(depth, ts[1..], []));
    }
  }

  lemma LegalTwo(a: Tree, b: Tree, ts: seq<Tree>)
    requires Legal(a) && Legal(b) && LegalAll(ts) && !b.Words?
    ensures LegalAll([a, b] + ts)
  {
    hide Legal;
    assert ([a, b] + ts)[1..] == [b] + ts && ([b] + ts)[1..] == ts;
  }

  /** White space around a text that is tidy is lost; alone it is nothing. */
  lemma LineArrives(depth: nat, text: bytes, behind: bytes, c: Content)
    requires |c.items| == |c.parents| && Blank(behind) && (text == [] || Kept(Characters, text) == text)
    ensures Load(Arrived(Words(Line(depth, text) + behind)), c) == Pending(c, Text, text)
  {
    BreakIs(depth);
    hide Break, Kept, Pending;
    if text == [] {
      KeptTrimmed(behind, [], []);
      assert [] + behind == behind;
    } else {
      KeptTrimmed(Break(true, depth), text, behind);
    }
  }

  /** The white space of indented output makes no difference to what is loaded. */
  lemma {:induction false} IndentedLoads(depth: nat, t: Tree, c: Content)
    requires |c.items| == |c.parents| && Tidy(t) && Separate(t)
    ensures Load(Arrived(Indented(depth, t)), c) == Load(t, c)
    decreases t
  {
    if t.Branch? && t.children != [] {
      var item := Item(Element, t.name, t.attributes);
      AllIndentedLoad(depth + 1, t.children, [], Added(c, item, true));
    } else {
      ArrivesIff(t);
    }
  }

  lemma {:induction false} AllIndentedLoad(depth: nat, ts: seq<Tree>, text: bytes, c: Content)
    requires |c.items| == |c.parents| && depth > 0 && TidyAll(ts) && SeparateAll(ts)
    requires text == [] || Kept(Characters, text) == text
    requires ts != [] && ts[0].Words? ==> text == []
    ensures LoadAll(ArrivedAll(IndentedAll(depth, ts, text)), c) == LoadAll(ts, Pending(c, Text, text))
    decreases ts
  {
    BreakIs(depth);
    BreakIs(depth - 1);
    hide Break, Line, Kept, Complete;
    if ts == [] {
      hide Pending;
      LineArrives(depth, text, Break(true, depth - 1), c);
      OneLoaded(Words(Line(depth, text) + Break(true, depth - 1)), c);
    } else if ts[0].Words? {
      ArrivesIff(ts[0]);
      AllIndentedLoad(depth, ts[1..], ts[0].text, c);
    } else {
      hide Pending, Arrived, Load;
      var d := Pending(c, Text, text);
      LineArrives(depth, text, Break(true, depth), c);
      IndentedLoads(depth, ts[0], d);
      AllIndentedLoad(depth, ts[1..], [], Load(ts[0], d));
      NothingPending(Load(ts[0], d));
      TwoLoaded(Words(Line(depth, text) + Break(true, depth)), Indented(depth, ts[0]), IndentedAll(depth, ts[1..], []), c);
    }
  }

  lemma OneLoaded(t: Tree, c: Content)
    requires |c.items| == |c.parents|
    ensures LoadAll(ArrivedAll([t]), c) == Load(Arrived(t), c)
  {
    hide Arrived, Load;
    assert |[t][1..]| == 0;
    assert ([Arrived(t)] + ArrivedAll([]))[1..] == ArrivedAll([]);
  }

  lemma TwoLoaded(a: Tree, b: Tree, ts: seq<Tree>, c: Content)
    requires |c.items| == |c.parents|
    ensures LoadAll(ArrivedAll([a, b] + ts), c) == LoadAll(ArrivedAll(ts), Load(Arrived(b), Load(Arrived(a), c)))
  {
    hide Arrived, Load;
    assert ([a, b] + ts)[1..] == [b] + ts && ([b] + ts)[1..] == ts;
    assert ArrivedAll([a, b] + ts) == [Arrived(a)] + ([Arrived(b)] + ArrivedAll(ts));
    LoadFirst(Arrived(a), [Arrived(b)] + ArrivedAll(ts), c);
    LoadFirst(Arrived(b), ArrivedAll(ts), Load(Arrived(a), c));
  }

  /** A tidy document is read back as itself from its printed form, indented or not. */
  lemma TidyReadBack(t: Tree, pretty: bool)
    requires t.Branch? && Legal(Merged(t)) && Tidy(Merged(t))
    ensures var r := Run(Session(Initial(), EMPTY), PrintedDocument(Load(t, EMPTY), pretty));
            r.Going? && r.session.content == Load(t, EMPTY) && r.session.machine.state == 45
  {
    hide Legal, Shown, Load, Run, Separate, Arrived, Tidy;
    var m := Merged(t);
    LoadMerged(t, EMPTY);
    MergedIsSeparate(t);
    LoadedIsShown(pretty, m);
    if pretty {
      ShownIndented(0, m);
      LegalIndented(0, m);
      IndentedLoads(0, m, EMPTY);
      assert Indented(0, m).Branch?;
      var s := ParsePrinted(Indented(0, m));
    } else {
      ShownFlat(0, m);
      ArrivesIff(m);
      var s := ParsePrinted(m);
    }
  }

  /** A document that is written out, indented or not, and read again by another parser is the same document. */
  method Reread(document: Document, pretty: bool, ghost t: Tree) returns (ok: bool, copy: Document)
    requires document.Valid() && document.View() == Load(t, EMPTY)
    requires t.Branch? && Legal(Merged(t)) && Tidy(Merged(t))
    ensures ok && fresh(copy) && copy.Valid() && copy.View() == document.View()
  {
    hide Legal, Load, Run, Shown, PrintedDocument, Tidy;
    TidyReadBack(t, pretty);
    var text := document.ToString(pretty);
    copy := new Document();
    var parser := new Parser(copy);
    FlattenOne(text);
    ok := parser.ParseFile([text]);
  }
}

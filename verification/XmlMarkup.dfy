/** What XML text may look like, and the document that it stands for. */
module XmlMarkup {
  import opened Bytes
  import opened Sequences
  import opened XmlDocument
  import opened XmlMachine
  import opened XmlParser
  import opened XmlReading
  import opened XmlText
  import HttpNames

  predicate IsName(name: bytes) {
    && 1 <= |name| <= 256 && IsNameStart(name[0])
    && forall i :: 0 <= i < |name| ==> IsNameChar(name[i])
  }

  /** A name that goes on beyond 256 bytes is refused, and so is a value beyond 4096. */
  lemma TooLong(s: Session, c: byte)
    requires |s.content.items| == |s.content.parents|
    ensures s.machine.state in {21, 43} && |s.machine.element| >= 256 && IsNameChar(c) ==> Advance(s, c).Stopped?
    ensures s.machine.state == 23 && |s.machine.attributeName| >= 256 && IsNameChar(c) ==> Advance(s, c).Stopped?
    ensures s.machine.state == 27 && |s.machine.text| >= 4096 && c != s.machine.quotes ==> Advance(s, c).Stopped?
  {
    if IsNameChar(c) {
      NameBytes(c);
    }
    hide IsNameChar, IsNameStart, IsChar, IsWhite;
  }

  /** The classes of characters: names begin with a letter, an underscore or a colon, and bytes above 127 are in no class. */
  lemma ClassesOfXml(c: byte)
    ensures IsNameStart(c) <==> 'A' <= c as char <= 'Z' || 'a' <= c as char <= 'z' || c as char == '_' || c as char == ':'
    ensures IsNameChar(c) <==>
            IsNameStart(c) || '0' <= c as char <= '9' || c as char == '-' || c as char == '.'
    ensures IsChar(c) <==> ' ' as int <= c <= 127 || c as char == '\t' || c as char == '\r' || c as char == '\n'
  {
  }

  /** An attribute as it is written: white space before it and around its equals sign, and quotes of either kind. */
  datatype Written = Written(before: bytes, name: bytes, left: bytes, right: bytes, quotes: byte, value: bytes)

  predicate IsWritten(w: Written) {
    && w.before != [] && Blank(w.before) && IsName(w.name) && Blank(w.left) && Blank(w.right)
    && (w.quotes as char == '"' || w.quotes as char == '\'') && w.quotes !in w.value
    && AllChars(w.value) && |w.value| <= 4096
  }

  predicate AreWritten(ws: seq<Written>) {
    forall i :: 0 <= i < |ws| ==> IsWritten(ws[i])
  }

  function WrittenText(w: Written): bytes {
    w.before + w.name + w.left + [EQ] + w.right + [w.quotes] + w.value + [w.quotes]
  }

  function WrittenAll(ws: seq<Written>): bytes {
    if ws == [] then [] else WrittenText(ws[0]) + WrittenAll(ws[1..])
  }

  function AttributesOf(ws: seq<Written>): (attributes: seq<Attribute>)
    ensures |attributes| == |ws|
  {
    seq(|ws|, i requires 0 <= i < |ws| => Attribute(ws[i].name, ws[i].value))
  }

  /** Elements with an end tag and without one, text, comments, processing instructions and CDATA sections. */
  datatype Markup =
    | Tagged(name: bytes, attributes: seq<Written>, gap: bytes, inner: seq<Markup>, end: bytes, endGap: bytes)
    | Empty(name: bytes, attributes: seq<Written>, gap: bytes)
    | Plain(text: bytes)
    | Note(text: bytes)
    | Order(text: bytes)
    | Section(letters: bytes, text: bytes)

  /**
   * Markup in order: names of up to 256 bytes, end tags with the name of their start tag in letters of any case,
   * white space wherever a tag allows it, and no ending inside of what it would end.
   */
  predicate IsMarkup(m: Markup) {
    match m
    case Tagged(name, attributes, gap, inner, end, endGap) =>
      && IsName(name) && AreWritten(attributes) && Blank(gap) && AreMarkup(inner)
      && IsName(end) && HttpNames.IsSpelling(end, name) && Blank(endGap)
    case Empty(name, attributes, gap) => IsName(name) && AreWritten(attributes) && Blank(gap)
    case Plain(text) => LT !in text
    case Note(text) => AllChars(text) && !Occurs(Ascii("-->"), text)
    case Order(text) => AllChars(text) && !Occurs(Ascii("?>"), text)
    case Section(letters, text) =>
      |letters| == 5 && Spells(letters, "CDATA") && AllChars(text) && !Occurs(Ascii("]]>"), text)
  }

  predicate AreMarkup(ms: seq<Markup>) {
    ms == [] || (IsMarkup(ms[0]) && AreMarkup(ms[1..]))
  }

  /** The text of markup; for all but plain text, what stands behind its `<`. */
  function TextOf(m: Markup): bytes
    decreases m, 1
  {
    if m.Plain? then m.text else Ascii("<") + Behind(m)
  }

  function Behind(m: Markup): bytes
    requires !m.Plain?
    decreases m, 0
  {
    match m
    case Tagged(name, attributes, gap, inner, end, endGap) =>
      name + WrittenAll(attributes) + gap + Ascii(">") + TextOfAll(inner) + Ascii("<") + (Ascii("/") + end + endGap + Ascii(">"))
    case Empty(name, attributes, gap) => name + WrittenAll(attributes) + gap + Ascii("/>")
    case Note(text) => Ascii("!--") + (text + Ascii("-->"))
    case Order(text) => Ascii("?") + (text + Ascii("?>"))
    case Section(letters, text) => Ascii("![") + letters + Ascii("[") + (text + Ascii("]]>"))
  }

  function TextOfAll(ms: seq<Markup>): bytes
    decreases ms, 2
  {
    if ms == [] then [] else TextOf(ms[0]) + TextOfAll(ms[1..])
  }

  /** How many bytes are in the buffer, and whether there is white space behind them. */
  datatype Level = Level(fill: nat, gap: bool)

  const FRESH := Level(0, false)

  /** White space between text and a CDATA section is one space. */
  function SpaceAt(level: Level): bytes {
    if level.gap && level.fill > 0 then [SPACE] else []
  }

  function LevelAfter(m: Markup, level: Level): Level {
    match m
    case Plain(text) =>
      Level(FillAll(level.fill, Pieces(Characters, level.gap, 0, text)), GapAfter(Characters, level.gap, 0, text))
    case Section(_, text) => Level(FillAll(|SpaceAt(level)|, PiecesOf(Data, text)), false)
    case _ => FRESH
  }

  /**
   * The document with what the markup stands for added below its innermost open element. The level matters only to
   * text directly behind other text, with which it is joined.
   */
  function Contents(m: Markup, level: Level, c: Content): (r: Content)
    requires |c.items| == |c.parents|
    ensures |r.items| == |r.parents| && r.parent == c.parent
    decreases m
  {
    match m
    case Tagged(name, attributes, _, inner, _, _) =>
      ContentsAll(inner, FRESH, Added(c, Item(Element, name, AttributesOf(attributes)), true)).(parent := c.parent)
    case Empty(name, attributes, _) => Added(c, Item(Element, name, AttributesOf(attributes)), false)
    case Plain(text) => Pending(c, Text, Laid(level.fill, Pieces(Characters, level.gap, 0, text)))
    case Note(text) => Pending(c, Comment, Kept(Remarks, text))
    case Order(text) => AddedAll(c, ProcessingInstruction, Layout([], PiecesOf(Instructions, text)))
    case Section(_, text) => Pending(c, Text, SpaceAt(level) + text)
  }

  function ContentsAll(ms: seq<Markup>, level: Level, c: Content): (r: Content)
    requires |c.items| == |c.parents|
    ensures |r.items| == |r.parents| && r.parent == c.parent
    decreases ms
  {
    if ms == [] then c else ContentsAll(ms[1..], LevelAfter(ms[0], level), Contents(ms[0], level, c))
  }

  /** Text between two tags arrives as `XmlText.Kept` says. */
  lemma FreshText(text: bytes, c: Content)
    requires |c.items| == |c.parents|
    ensures Contents(Plain(text), FRESH, c) == Pending(c, Text, Kept(Characters, text))
  {
    assert text + Marks(Characters, 0) == text;
  }

  /** The machine reads character data. */
  predicate Inside(m: Machine, depth: nat) {
    m.state == 30 && m.hasRoot && m.depth == depth > 0
  }

  /** It has read none yet. */
  predicate Entered(m: Machine, depth: nat) {
    Inside(m, depth) && m.text == [] && m.lastChar == 0
  }

  lemma NameBytes(b: byte)
    requires IsNameChar(b)
    ensures !IsWhite(b) && b != GT && b != SLASH && b != EQ && b != BANG && b != QUESTION && b != 0 && b != LT
  {
  }

  /** The machine after some more bytes of the name it is reading. */
  function Named(m: Machine, rest: bytes): Machine {
    if m.state == 23 then m.(attributeName := m.attributeName + rest) else m.(element := m.element + rest)
  }

  lemma NameByte(s: Session, b: byte)
    requires |s.content.items| == |s.content.parents| && s.machine.state in {21, 23, 43} && IsNameChar(b)
    requires s.machine.state == 43 ==> s.machine.depth > 0
    requires (if s.machine.state == 23 then |s.machine.attributeName| else |s.machine.element|) < NAME_MAX
    ensures Leads(s, [b], Session(Named(s.machine, [b]), s.content))
  {
    NameBytes(b);
    hide IsNameChar, IsWhite;
    LeadsByte(s, b, Session(Named(s.machine, [b]), s.content));
  }

  lemma {:induction false} NameRun(s: Session, rest: bytes)
    requires |s.content.items| == |s.content.parents| && s.machine.state in {21, 23, 43}
    requires s.machine.state == 43 ==> s.machine.depth > 0
    requires forall i :: 0 <= i < |rest| ==> IsNameChar(rest[i])
    requires (if s.machine.state == 23 then |s.machine.attributeName| else |s.machine.element|) + |rest| <= NAME_MAX
    ensures Leads(s, rest, Session(Named(s.machine, rest), s.content))
    decreases |rest|
  {
    hide Leads, IsNameChar;
    if rest == [] {
      LeadsNowhere(s);
      assert s.machine.element + [] == s.machine.element && s.machine.attributeName + [] == s.machine.attributeName;
    } else {
      assert rest == [rest[0]] + rest[1..];
      var u := Session(Named(s.machine, [rest[0]]), s.content);
      NameByte(s, rest[0]);
      NameRun(u, rest[1..]);
      assert s.machine.element + rest == u.machine.element + rest[1..]
             || s.machine.attributeName + rest == u.machine.attributeName + rest[1..];
      LeadsOn(s, [rest[0]], u, rest[1..], Session(Named(u.machine, rest[1..]), s.content));
    }
  }

  /** Right after the `<` of a start tag, inside an element or at the root. */
  predicate AtTag(m: Machine, depth: nat) {
    m.depth == depth && if depth > 0 then m.state == 31 && m.hasRoot else m.state == 1
  }

  /** A start tag has been read up to the given attributes. */
  predicate InTag(m: Machine, depth: nat, name: bytes, attributes: seq<Attribute>) {
    && m.depth == depth && m.hasRoot && m.element == name
    && if attributes == [] then m.state == 21 else m.state == 28 && m.attributes == attributes
  }

  lemma TagName(s: Session, name: bytes, depth: nat) returns (t: Session)
    requires |s.content.items| == |s.content.parents| && AtTag(s.machine, depth) && IsName(name)
    ensures Leads(s, name, t) && InTag(t.machine, depth, name, []) && t.content == s.content
  {
    var u := Session(s.machine.(state := 21, element := [name[0]], hasRoot := true), s.content);
    assert Advance(s, name[0]) == Going(u) by {
      hide IsNameStart;
    }
    LeadsByte(s, name[0], u);
    hide Leads, Advance, IsNameStart, IsNameChar;
    NameRun(u, name[1..]);
    t := Session(Named(u.machine, name[1..]), s.content);
    LeadsOn(s, [name[0]], u, name[1..], t);
    assert [name[0]] + name[1..] == name;
  }

  /** White space inside of tags and outside of all elements is skipped. */
  lemma {:induction false} WhiteRun(s: Session, white: bytes)
    requires |s.content.items| == |s.content.parents| && s.machine.state in {0, 14, 22, 24, 25, 44, 45} && Blank(white)
    requires s.machine.state == 44 ==> s.machine.depth > 0
    ensures Leads(s, white, s)
    decreases |white|
  {
    hide Leads, Run;
    if white == [] {
      LeadsNowhere(s);
    } else {
      WhiteByte(s, white[0]);
      WhiteRun(s, white[1..]);
      LeadsOn(s, [white[0]], s, white[1..], s);
      assert white == [white[0]] + white[1..];
    }
  }

  lemma WhiteByte(s: Session, c: byte)
    requires |s.content.items| == |s.content.parents| && s.machine.state in {0, 14, 22, 24, 25, 44, 45} && IsSpace(c)
    requires s.machine.state == 44 ==> s.machine.depth > 0
    ensures Leads(s, [c], s)
  {
    WhiteIs(c);
    WhiteNames(c);
    hide IsWhite, IsSpace, IsNameStart;
    LeadsByte(s, c, s);
  }

  lemma WhiteNames(c: byte)
    requires IsSpace(c)
    ensures !IsNameStart(c) && !IsNameChar(c) && c != SLASH && c != EQ && c != BANG && c != DOUBLE_QUOTE && c != SINGLE_QUOTE
  {
  }

  /** White space, of which the first byte may lead to another state. */
  lemma WhiteFrom(s: Session, white: bytes, t: Session)
    requires white != [] && Blank(white) && Leads(s, [white[0]], t)
    requires t.machine.state in {0, 14, 22, 24, 25, 44, 45} && (t.machine.state == 44 ==> t.machine.depth > 0)
    ensures Leads(s, white, t)
  {
    hide Leads;
    assert |t.content.items| == |t.content.parents| by {
      LeadsSound(s, [white[0]], t);
    }
    WhiteRun(t, white[1..]);
    LeadsOn(s, [white[0]], t, white[1..], t);
    assert white == [white[0]] + white[1..];
  }

  lemma LeadsSound(s: Session, input: bytes, t: Session)
    requires Leads(s, input, t)
    ensures |t.content.items| == |t.content.parents|
  {
  }

  /** The value of an attribute, from behind the opening quote to behind the closing one. */
  lemma ValueRun(s: Session, value: bytes) returns (t: Session)
    requires |s.content.items| == |s.content.parents| && s.machine.state == 26 && s.machine.quotes !in value
    requires |value| <= TEXT_SIZE && AllChars(value)
    ensures Leads(s, value + [s.machine.quotes], t) && t.content == s.content
    ensures t.machine == s.machine.(state := 28, text := t.machine.text,
                                    attributes := s.machine.attributes + [Attribute(s.machine.attributeName, value)])
  {
    var m := s.machine;
    if value == [] {
      t := Session(m.(state := 28, attributes := m.attributes + [Attribute(m.attributeName, [])]), s.content);
      LeadsByte(s, m.quotes, t);
      assert [] + [m.quotes] == [m.quotes];
    } else {
      var u := Session(m.(state := 27, text := [value[0]]), s.content);
      LeadsByte(s, value[0], u);
      ValueRest(u, value[1..]);
      assert [value[0]] + value[1..] == value;
      var v := Session(u.machine.(text := value), s.content);
      t := Session(v.machine.(state := 28, attributes := m.attributes + [Attribute(m.attributeName, value)]), s.content);
      LeadsByte(v, m.quotes, t);
      LeadsOn(s, [value[0]], u, value[1..], v);
      LeadsOn(s, value, v, [m.quotes], t);
    }
  }

  lemma {:induction false} ValueRest(s: Session, rest: bytes)
    requires |s.content.items| == |s.content.parents| && s.machine.state == 27 && s.machine.quotes !in rest
    requires |s.machine.text| + |rest| <= TEXT_SIZE && AllChars(rest)
    ensures Leads(s, rest, Session(s.machine.(text := s.machine.text + rest), s.content))
    decreases |rest|
  {
    if rest == [] {
      LeadsNowhere(s);
      assert s.machine.text + [] == s.machine.text;
    } else {
      var u := Session(s.machine.(text := s.machine.text + [rest[0]]), s.content);
      LeadsByte(s, rest[0], u);
      hide Leads;
      ValueRest(u, rest[1..]);
      assert rest == [rest[0]] + rest[1..];
      assert u.machine.text + rest[1..] == s.machine.text + rest;
      LeadsOn(s, [rest[0]], u, rest[1..], Session(s.machine.(text := s.machine.text + rest), s.content));
    }
  }

  /** A start tag has been read up to the given attributes, perhaps with white space behind them. */
  predicate InOpenTag(m: Machine, depth: nat, name: bytes, attributes: seq<Attribute>) {
    InTag(m, depth, name, attributes) || (
      m.depth == depth && m.hasRoot && m.element == name && m.state == 22 && m.attributes == attributes)
  }

  lemma GapRun(s: Session, depth: nat, element: bytes, attributes: seq<Attribute>, gap: bytes) returns (t: Session)
    requires |s.content.items| == |s.content.parents| && InTag(s.machine, depth, element, attributes) && Blank(gap)
    ensures Leads(s, gap, t) && t.content == s.content && InOpenTag(t.machine, depth, element, attributes)
    ensures gap != [] ==> t.machine == s.machine.(state := 22, attributes := attributes)
    ensures gap == [] ==> t == s
  {
    if gap == [] {
      LeadsNowhere(s);
      t := s;
    } else {
      WhiteIs(gap[0]);
      t := Session(s.machine.(state := 22, attributes := attributes), s.content);
      hide IsWhite, IsSpace, Leads;
      LeadsByte(s, gap[0], t);
      WhiteFrom(s, gap, t);
    }
  }

  /** The name of an attribute, from its first letter to the opening quote. */
  lemma AttributeOpens(s: Session, w: Written) returns (t: Session)
    requires |s.content.items| == |s.content.parents| && s.machine.state == 22 && IsWritten(w)
    ensures Leads(s, w.name + w.left + [EQ] + w.right + [w.quotes], t) && t.content == s.content
    ensures t.machine == s.machine.(state := 26, attributeName := w.name, quotes := w.quotes)
  {
    var a := Session(s.machine.(state := 23, attributeName := [w.name[0]]), s.content);
    assert Advance(s, w.name[0]) == Going(a) by {
      hide IsNameStart;
    }
    LeadsByte(s, w.name[0], a);
    var b := Session(a.machine.(attributeName := w.name), s.content);
    NameRun(a, w.name[1..]);
    assert [w.name[0]] + w.name[1..] == w.name;
    var c := LeftRun(b, w.left);
    var d := InState(c, 25);
    LeadsByte(c, EQ, d);
    WhiteRun(d, w.right);
    t := Session(d.machine.(state := 26, quotes := w.quotes), s.content);
    LeadsByte(d, w.quotes, t);
    hide Leads, Advance, IsWritten;
    LeadsOn(s, [w.name[0]], a, w.name[1..], b);
    LeadsOn(s, w.name, b, w.left, c);
    LeadsOn(s, w.name + w.left, c, [EQ], d);
    LeadsOn(s, w.name + w.left + [EQ], d, w.right, d);
    LeadsOn(s, w.name + w.left + [EQ] + w.right, d, [w.quotes], t);
  }

  /** White space before the equals sign. */
  lemma LeftRun(s: Session, white: bytes) returns (t: Session)
    requires |s.content.items| == |s.content.parents| && s.machine.state == 23 && Blank(white)
    ensures Leads(s, white, t) && t == InState(s, if white == [] then 23 else 24)
  {
    if white == [] {
      LeadsNowhere(s);
      t := s;
    } else {
      WhiteIs(white[0]);
      t := InState(s, 24);
      hide IsWhite, IsSpace, Leads;
      LeadsByte(s, white[0], t);
      WhiteFrom(s, white, t);
    }
  }

  lemma AttributeRun(s: Session, depth: nat, element: bytes, attributes: seq<Attribute>, w: Written)
    returns (t: Session)
    requires |s.content.items| == |s.content.parents| && InTag(s.machine, depth, element, attributes) && IsWritten(w)
    ensures Leads(s, WrittenText(w), t) && t.content == s.content
    ensures InTag(t.machine, depth, element, attributes + [Attribute(w.name, w.value)])
  {
    var a := GapRun(s, depth, element, attributes, w.before);
    hide Leads, IsName;
    var b := AttributeOpens(a, w);
    t := ValueRun(b, w.value);
    var front := w.name + w.left + [EQ] + w.right + [w.quotes];
    LeadsOn(s, w.before, a, front, b);
    LeadsOn(s, w.before + front, b, w.value + [w.quotes], t);
    assert WrittenText(w) == w.before + front + (w.value + [w.quotes]) by {
      WrittenParts(w);
    }
  }

  lemma WrittenParts(w: Written)
    ensures WrittenText(w) == w.before + (w.name + w.left + [EQ] + w.right + [w.quotes]) + (w.value + [w.quotes])
  {
  }

  lemma {:induction false} AttributesRun(s: Session, depth: nat, element: bytes, attributes: seq<Attribute>, ws: seq<Written>)
    returns (t: Session)
    requires |s.content.items| == |s.content.parents| && InTag(s.machine, depth, element, attributes) && AreWritten(ws)
    ensures Leads(s, WrittenAll(ws), t) && t.content == s.content
    ensures InTag(t.machine, depth, element, attributes + AttributesOf(ws))
    decreases |ws|
  {
    hide Leads, IsWritten, WrittenText;
    if ws == [] {
      LeadsNowhere(s);
      t := s;
      assert attributes + AttributesOf(ws) == attributes;
    } else {
      var first := Attribute(ws[0].name, ws[0].value);
      var u := AttributeRun(s, depth, element, attributes, ws[0]);
      t := AttributesRun(u, depth, element, attributes + [first], ws[1..]);
      LeadsOn(s, WrittenText(ws[0]), u, WrittenAll(ws[1..]), t);
      assert AttributesOf(ws) == [first] + AttributesOf(ws[1..]);
      Associative(attributes, [first], AttributesOf(ws[1..]));
    }
  }

  /** A start tag up to its last byte. */
  lemma HeadRun(s: Session, depth: nat, name: bytes, ws: seq<Written>, gap: bytes) returns (t: Session)
    requires |s.content.items| == |s.content.parents| && AtTag(s.machine, depth)
    requires IsName(name) && AreWritten(ws) && Blank(gap)
    ensures Leads(s, name + WrittenAll(ws) + gap, t) && t.content == s.content
    ensures InOpenTag(t.machine, depth, name, AttributesOf(ws))
  {
    hide Leads, IsName, InTag, WrittenAll, AreWritten;
    var a := TagName(s, name, depth);
    var b := AttributesRun(a, depth, name, [], ws);
    LeadsOn(s, name, a, WrittenAll(ws), b);
    assert [] + AttributesOf(ws) == AttributesOf(ws);
    t := GapRun(b, depth, name, AttributesOf(ws), gap);
    LeadsOn(s, name + WrittenAll(ws), b, gap, t);
  }

  lemma StartTagEnds(s: Session, depth: nat, name: bytes, attributes: seq<Attribute>) returns (t: Session)
    requires |s.content.items| == |s.content.parents| && InOpenTag(s.machine, depth, name, attributes)
    ensures Leads(s, [GT], t) && t.content == Added(s.content, Item(Element, name, attributes), true)
    ensures Entered(t.machine, depth + 1)
  {
    var m := s.machine.(state := 30, depth := depth + 1, attributes := attributes, text := [], lastChar := 0);
    t := Session(m, Added(s.content, Item(Element, name, attributes), true));
    hide Added;
    LeadsByte(s, GT, t);
  }

  lemma EmptyTagEnds(s: Session, depth: nat, name: bytes, attributes: seq<Attribute>) returns (t: Session)
    requires |s.content.items| == |s.content.parents| && InOpenTag(s.machine, depth, name, attributes)
    ensures Leads(s, [SLASH, GT], t) && t.content == Added(s.content, Item(Element, name, attributes), false)
    ensures depth > 0 ==> Entered(t.machine, depth)
    ensures depth == 0 ==> Outside(t.machine, 45)
  {
    hide Added;
    var a := Session(s.machine.(state := 29, attributes := attributes), s.content);
    LeadsByte(s, SLASH, a);
    var m := if depth > 0 then a.machine.(state := 30, text := [], lastChar := 0) else a.machine.(state := 45);
    t := Session(m, Added(s.content, Item(Element, name, attributes), false));
    LeadsByte(a, GT, t);
    LeadsOn(s, [SLASH], a, [GT], t);
    assert [SLASH] + [GT] == [SLASH, GT];
  }

  /** Outside of all elements: before the root (state 0) or after it (state 45). */
  predicate Outside(m: Machine, state: nat) {
    m.state == state && m.depth == 0 && m.hasRoot == (state == 45)
  }

  lemma SpellingNames(name: bytes, end: bytes)
    requires HttpNames.IsSpelling(end, name) && 0 !in name && 0 !in end
    ensures Names(name, end)
  {
    NoNul(name);
    NoNul(end);
    HttpNames.CompareEqual(name, end);
    HttpNames.SameNameIs(name, end);
    forall i | 0 <= i < |name|
      ensures HttpNames.SameLetter(name[i], end[i])
    {
      assert HttpNames.SameLetter(end[i], name[i]);
    }
  }

  lemma {:induction false} NoNul(text: bytes)
    requires 0 !in text
    ensures HttpNames.UpToNul(text) == text
  {
    if text != [] {
      NoNul(text[1..]);
    }
  }

  lemma NameHasNoNul(name: bytes)
    requires IsName(name)
    ensures 0 !in name
  {
  }

  lemma EndNameRun(s: Session, end: bytes) returns (t: Session)
    requires |s.content.items| == |s.content.parents| && s.machine.state == 42 && s.machine.depth > 0 && IsName(end)
    ensures Leads(s, end, t) && t == Session(s.machine.(state := 43, element := end), s.content)
  {
    var b := Session(s.machine.(state := 43, element := [end[0]]), s.content);
    assert Advance(s, end[0]) == Going(b) by {
      hide IsNameStart;
    }
    LeadsByte(s, end[0], b);
    NameRun(b, end[1..]);
    assert [end[0]] + end[1..] == end;
    t := Session(b.machine.(element := end), s.content);
    LeadsOn(s, [end[0]], b, end[1..], t);
  }

  lemma EndGapRun(s: Session, gap: bytes) returns (t: Session)
    requires |s.content.items| == |s.content.parents| && s.machine.state == 43 && s.machine.depth > 0 && Blank(gap)
    ensures Leads(s, gap, t) && t == InState(s, if gap == [] then 43 else 44)
  {
    if gap == [] {
      LeadsNowhere(s);
      t := s;
    } else {
      WhiteIs(gap[0]);
      WhiteNames(gap[0]);
      t := InState(s, 44);
      hide IsWhite, IsSpace, Leads, IsNameChar;
      LeadsByte(s, gap[0], t);
      WhiteFrom(s, gap, t);
    }
  }

  lemma ElementCloses(s: Session, depth: nat) returns (t: Session)
    requires |s.content.items| == |s.content.parents| && s.machine.state in {43, 44} && s.machine.depth == depth > 0
    requires 0 <= s.content.parent < |s.content.items| && s.machine.hasRoot
    requires Names(s.content.items[s.content.parent].text, s.machine.element)
    ensures Leads(s, [GT], t) && t.content == Closed(s.content)
    ensures depth > 1 ==> Entered(t.machine, depth - 1)
    ensures depth == 1 ==> Outside(t.machine, 45)
  {
    hide Names;
    var m := if depth > 1 then s.machine.(state := 30, depth := depth - 1, text := [], lastChar := 0)
             else s.machine.(state := 45, depth := 0);
    t := Session(m, Closed(s.content));
    LeadsByte(s, GT, t);
  }

  /** An end tag, behind its `<`, for the innermost open element. */
  lemma EndTagRun(s: Session, depth: nat, name: bytes, end: bytes, gap: bytes) returns (t: Session)
    requires |s.content.items| == |s.content.parents| && AtTag(s.machine, depth) && depth > 0
    requires IsName(name) && IsName(end) && HttpNames.IsSpelling(end, name) && Blank(gap)
    requires 0 <= s.content.parent < |s.content.items| && s.content.items[s.content.parent].text == name
    ensures Leads(s, [SLASH] + end + gap + [GT], t) && t.content == Closed(s.content)
    ensures depth > 1 ==> Entered(t.machine, depth - 1)
    ensures depth == 1 ==> Outside(t.machine, 45)
  {
    NameHasNoNul(name);
    NameHasNoNul(end);
    SpellingNames(name, end);
    hide Names, IsName, HttpNames.IsSpelling, Closed;
    var a := InState(s, 42);
    LeadsByte(s, SLASH, a);
    hide Leads, Advance;
    var b := EndNameRun(a, end);
    var c := EndGapRun(b, gap);
    t := ElementCloses(c, depth);
    LeadsOn(s, [SLASH], a, end, b);
    LeadsOn(s, [SLASH] + end, b, gap, c);
    LeadsOn(s, [SLASH] + end + gap, c, [GT], t);
  }

  /** The characters of markup. */
  lemma LiteralsAre()
    ensures Ascii("<") == [LT] && Ascii(">") == [GT] && Ascii("/>") == [SLASH, GT] && Ascii("/") == [SLASH]
    ensures Ascii("!--") == [BANG, MINUS, MINUS] && Ascii("-->") == [MINUS, MINUS, GT]
    ensures Ascii("?") == [QUESTION] && Ascii("?>") == [QUESTION, GT]
    ensures Ascii("![") == [BANG, LBRACKET] && Ascii("[") == [LBRACKET] && Ascii("]]>") == [RBRACKET, RBRACKET, GT]
  {
  }

  lemma AddedKeeps(c: Content, item: Item, opens: bool, i: nat)
    requires |c.items| == |c.parents| && i < |c.items| && c.items[i].kind.Element?
    ensures var r := Added(c, item, opens); i < |r.items| && r.items[i] == c.items[i] && r.parents[i] == c.parents[i]
  {
  }

  lemma PendingKeeps(c: Content, kind: Kind, text: bytes, i: nat)
    requires |c.items| == |c.parents| && i < |c.items| && c.items[i].kind.Element?
    ensures var r := Pending(c, kind, text); i < |r.items| && r.items[i] == c.items[i] && r.parents[i] == c.parents[i]
  {
    hide Added;
    AddedKeeps(c, Item(kind, text, []), false, i);
  }

  lemma {:induction false} AddedAllKeeps(c: Content, kind: Kind, texts: seq<bytes>, i: nat)
    requires |c.items| == |c.parents| && i < |c.items| && c.items[i].kind.Element?
    ensures var r := AddedAll(c, kind, texts); i < |r.items| && r.items[i] == c.items[i] && r.parents[i] == c.parents[i]
    decreases |texts|
  {
    hide Pending;
    if texts != [] {
      PendingKeeps(c, kind, texts[0], i);
      AddedAllKeeps(Pending(c, kind, texts[0]), kind, texts[1..], i);
    }
  }

  /** More markup never changes an element that is already there. */
  lemma {:induction false} ContentsKeep(m: Markup, level: Level, c: Content, i: nat)
    requires |c.items| == |c.parents| && i < |c.items| && c.items[i].kind.Element?
    ensures var r := Contents(m, level, c); i < |r.items| && r.items[i] == c.items[i] && r.parents[i] == c.parents[i]
    decreases m
  {
    hide Added, Pending, AddedAll;
    match m
    case Tagged(name, attributes, _, inner, _, _) =>
      var item := Item(Element, name, AttributesOf(attributes));
      AddedKeeps(c, item, true, i);
      AllContentsKeep(inner, FRESH, Added(c, item, true), i);
    case Empty(name, attributes, _) => AddedKeeps(c, Item(Element, name, AttributesOf(attributes)), false, i);
    case Plain(text) => PendingKeeps(c, Text, Laid(level.fill, Pieces(Characters, level.gap, 0, text)), i);
    case Note(text) => PendingKeeps(c, Comment, Kept(Remarks, text), i);
    case Order(text) => AddedAllKeeps(c, ProcessingInstruction, Layout([], PiecesOf(Instructions, text)), i);
    case Section(_, text) => PendingKeeps(c, Text, SpaceAt(level) + text, i);
  }

  lemma {:induction false} AllContentsKeep(ms: seq<Markup>, level: Level, c: Content, i: nat)
    requires |c.items| == |c.parents| && i < |c.items| && c.items[i].kind.Element?
    ensures var r := ContentsAll(ms, level, c); i < |r.items| && r.items[i] == c.items[i] && r.parents[i] == c.parents[i]
    decreases ms
  {
    if ms != [] {
      ContentsKeep(ms[0], level, c, i);
      AllContentsKeep(ms[1..], LevelAfter(ms[0], level), Contents(ms[0], level, c), i);
    }
  }

  lemma ElementAdded(c: Content, item: Item)
    requires |c.items| == |c.parents| && item.kind.Element?
    ensures var r, n := Added(c, item, true), |c.items|;
            |r.items| == n + 1 && r.parent == n && r.items[n] == item && r.parents[n] == c.parent
  {
  }

  /** A comment, behind its `<`. */
  lemma NoteRun(s: Session, depth: nat, text: bytes) returns (t: Session)
    requires |s.content.items| == |s.content.parents| && AtTag(s.machine, depth) && depth > 0
    requires AllChars(text) && !Occurs(Ascii("-->"), text)
    ensures Leads(s, [BANG, MINUS, MINUS] + (text + [MINUS, MINUS, GT]), t) && Entered(t.machine, depth)
    ensures t.content == Pending(s.content, Comment, Kept(Remarks, text))
  {
    LeadsByte(s, BANG, InState(s, 32));
    OneMore(s, [BANG], InState(s, 32), MINUS, InState(s, 3));
    var c := Session(s.machine.(state := 4, text := [], lastChar := 0), s.content);
    OneMore(s, [BANG] + [MINUS], InState(s, 3), MINUS, c);
    hide Leads, Advance, Pending, Occurs, Kept;
    assert [BANG] + [MINUS] + [MINUS] == [BANG, MINUS, MINUS];
    t := RemarkRead(c, text);
    LeadsOn(s, [BANG, MINUS, MINUS], c, text + [MINUS, MINUS, GT], t);
  }

  /** A processing instruction, behind its `<`. */
  lemma OrderRun(s: Session, depth: nat, text: bytes) returns (t: Session)
    requires |s.content.items| == |s.content.parents| && AtTag(s.machine, depth) && depth > 0
    requires AllChars(text) && !Occurs(Ascii("?>"), text)
    ensures Leads(s, [QUESTION] + (text + [QUESTION, GT]), t) && Entered(t.machine, depth)
    ensures t.content == AddedAll(s.content, ProcessingInstruction, Layout([], PiecesOf(Instructions, text)))
  {
    var a := Session(s.machine.(state := 19, text := [], lastChar := 0), s.content);
    LeadsByte(s, QUESTION, a);
    hide Leads, Advance, Occurs, AddedAll, Layout;
    t := InstructionRead(a, text);
    LeadsOn(s, [QUESTION], a, text + [QUESTION, GT], t);
  }

  /** An element without an end tag, behind its `<`. */
  lemma EmptyRun(s: Session, m: Markup, depth: nat) returns (u: Session)
    requires |s.content.items| == |s.content.parents| && AtTag(s.machine, depth) && m.Empty? && IsMarkup(m)
    ensures Leads(s, Behind(m), u) && u.content == Contents(m, FRESH, s.content)
    ensures depth > 0 ==> Entered(u.machine, depth)
    ensures depth == 0 ==> Outside(u.machine, 45)
  {
    LiteralsAre();
    hide Leads, Added, IsName, WrittenAll, AreWritten, Ascii;
    var a := HeadRun(s, depth, m.name, m.attributes, m.gap);
    u := EmptyTagEnds(a, depth, m.name, AttributesOf(m.attributes));
    LeadsOn(s, m.name + WrittenAll(m.attributes) + m.gap, a, [SLASH, GT], u);
  }

  lemma InsideTag(m: Machine, depth: nat)
    requires Inside(m, depth)
    ensures m.state == 30 && AtTag(m.(state := 31), depth)
  {
  }

  /** An element with an end tag, behind its `<`. */
  lemma {:induction false} TaggedRun(s: Session, m: Markup, depth: nat) returns (u: Session)
    requires |s.content.items| == |s.content.parents| && AtTag(s.machine, depth) && m.Tagged? && IsMarkup(m)
    ensures Leads(s, Behind(m), u) && u.content == Contents(m, FRESH, s.content)
    ensures depth > 0 ==> Entered(u.machine, depth)
    ensures depth == 0 ==> Outside(u.machine, 45)
    decreases m, 0
  {
    var item, n := Item(Element, m.name, AttributesOf(m.attributes)), |s.content.items|;
    var head, inner := m.name + WrittenAll(m.attributes) + m.gap, TextOfAll(m.inner);
    TaggedParts(m);
    hide Leads, Added, Inside, AtTag, IsName, WrittenAll, AreWritten, TextOf, TextOfAll, Behind, HttpNames.IsSpelling;
    var a := HeadRun(s, depth, m.name, m.attributes, m.gap);
    var b := StartTagEnds(a, depth, m.name, AttributesOf(m.attributes));
    LeadsOn(s, head, a, [GT], b);
    ElementAdded(s.content, item);
    AllContentsKeep(m.inner, FRESH, b.content, n);
    assert b.machine.text == [] && Inside(b.machine, depth + 1) && LevelOf(b.machine) == FRESH;
    NothingPending(b.content);
    var c := MarkupsRun(b, m.inner, depth + 1);
    InsideTag(c.machine, depth + 1);
    var d := OpenAngle(c);
    u := EndTagRun(d, depth + 1, m.name, m.end, m.endGap);
    LeadsOn(s, head + [GT], b, inner, c);
    LeadsOn(s, head + [GT] + inner, c, [LT], d);
    LeadsOn(s, head + [GT] + inner + [LT], d, [SLASH] + m.end + m.endGap + [GT], u);
  }

  lemma TaggedParts(m: Markup)
    requires m.Tagged?
    ensures Behind(m)
            == m.name + WrittenAll(m.attributes) + m.gap + [GT] + TextOfAll(m.inner) + [LT]
               + ([SLASH] + m.end + m.endGap + [GT])
  {
    LiteralsAre();
    hide Ascii, WrittenAll;
  }

  lemma NothingPending(c: Content)
    requires |c.items| == |c.parents|
    ensures Pending(c, Text, []) == c
  {
  }

  function LevelOf(m: Machine): Level {
    Level(|m.text|, IsWhite(m.lastChar))
  }

  lemma EnteredIsFresh(m: Machine, depth: nat)
    requires Entered(m, depth)
    ensures LevelOf(m) == FRESH && m.text == []
  {
  }

  lemma PlainRun(s: Session, text: bytes, depth: nat) returns (u: Session)
    requires |s.content.items| == |s.content.parents| && Inside(s.machine, depth) && LT !in text
    ensures Leads(s, text, u) && Inside(u.machine, depth)
    ensures LevelOf(u.machine) == LevelAfter(Plain(text), LevelOf(s.machine))
    ensures Pending(u.content, Text, u.machine.text)
            == Contents(Plain(text), LevelOf(s.machine), Pending(s.content, Text, s.machine.text))
  {
    hide Leads, Pending, Laid, Pieces, FillAll, GapAfter, IsWhite;
    u := CharacterRun(s, text);
  }

  /** A CDATA section, behind its `<`. */
  lemma SectionRun(s: Session, letters: bytes, text: bytes, depth: nat) returns (u: Session)
    requires |s.content.items| == |s.content.parents| && AtTag(s.machine, depth) && depth > 0
    requires IsMarkup(Section(letters, text))
    ensures Leads(s, [BANG, LBRACKET] + letters + [LBRACKET] + (text + [RBRACKET, RBRACKET, GT]), u)
    ensures Inside(u.machine, depth) && LevelOf(u.machine) == LevelAfter(Section(letters, text), LevelOf(s.machine))
    ensures Pending(u.content, Text, u.machine.text) == Contents(Section(letters, text), LevelOf(s.machine), s.content)
  {
    hide Leads, Pending, Pieces, FillAll, Occurs, AllChars, Spells;
    u := SectionRead(s, letters, text);
  }

  /** Markup inside an element is added to the document, up to text that may still be growing. */
  lemma {:induction false} MarkupRun(s: Session, m: Markup, depth: nat) returns (u: Session)
    requires |s.content.items| == |s.content.parents| && Inside(s.machine, depth) && IsMarkup(m)
    ensures Leads(s, TextOf(m), u) && Inside(u.machine, depth) && LevelOf(u.machine) == LevelAfter(m, LevelOf(s.machine))
    ensures Pending(u.content, Text, u.machine.text)
            == Contents(m, LevelOf(s.machine), Pending(s.content, Text, s.machine.text))
    decreases m, 1
  {
    InsideTag(s.machine, depth);
    if m.Plain? {
      hide Leads, Pending, Contents, LevelAfter, LevelOf;
      u := PlainRun(s, m.text, depth);
    } else {
      LiteralsAre();
      hide Leads, Pending, Kept, AddedAll, Layout, Ascii, Occurs, AllChars, TextOfAll, ContentsAll, Added, Laid, Pieces;
      var a := OpenAngle(s);
      match m {
        case Tagged(_, _, _, _, _, _) =>
          hide Behind, IsMarkup;
          u := TaggedRun(a, m, depth);
        case Empty(_, _, _) =>
          hide Behind, IsMarkup;
          u := EmptyRun(a, m, depth);
        case Note(text) => u := NoteRun(a, depth, text);
        case Order(text) => u := OrderRun(a, depth, text);
        case Section(letters, text) => u := SectionRun(a, letters, text, depth);
      }
      LeadsOn(s, [LT], a, Behind(m), u);
      if !m.Section? {
        EnteredIsFresh(u.machine, depth);
        NothingPending(u.content);
      }
    }
  }

  lemma {:induction false} MarkupsRun(s: Session, ms: seq<Markup>, depth: nat) returns (u: Session)
    requires |s.content.items| == |s.content.parents| && Inside(s.machine, depth) && AreMarkup(ms)
    ensures Leads(s, TextOfAll(ms), u) && Inside(u.machine, depth)
    ensures Pending(u.content, Text, u.machine.text)
            == ContentsAll(ms, LevelOf(s.machine), Pending(s.content, Text, s.machine.text))
    decreases ms, 2
  {
    hide Leads, Inside, TextOf, Contents, IsMarkup, Pending, LevelAfter, LevelOf;
    if ms == [] {
      LeadsNowhere(s);
      u := s;
    } else {
      var a := MarkupRun(s, ms[0], depth);
      u := MarkupsRun(a, ms[1..], depth);
      LeadsOn(s, TextOf(ms[0]), a, TextOfAll(ms[1..]), u);
    }
  }

  /** What may stand before and behind the root element; document types and conditional sections only before it. */
  datatype Misc =
    | Space(white: bytes)
    | Aside(text: bytes)
    | Direction(text: bytes)
    | Type(letters: bytes, white: bytes, text: bytes)
    | Skipped(text: bytes)

  predicate IsMisc(m: Misc, before: bool) {
    match m
    case Space(white) => Blank(white)
    case Aside(text) => AllChars(text) && !Occurs(Ascii("-->"), text)
    case Direction(text) => AllChars(text) && !Occurs(Ascii("?>"), text)
    case Type(letters, white, text) =>
      && before && |letters| == 7 && Spells(letters, "DOCTYPE") && white != [] && Blank(white)
      && text != [] && IsNameStart(text[0]) && AllChars(text) && GT !in text
    case Skipped(text) => before && AllChars(text) && !Occurs(Ascii("]]>"), text)
  }

  predicate AreMisc(ms: seq<Misc>, before: bool) {
    forall i :: 0 <= i < |ms| ==> IsMisc(ms[i], before)
  }

  function MiscText(m: Misc): bytes {
    match m
    case Space(white) => white
    case Aside(text) => Ascii("<!--") + (text + Ascii("-->"))
    case Direction(text) => Ascii("<?") + (text + Ascii("?>"))
    case Type(letters, white, text) => Ascii("<!") + letters + white + (text + Ascii(">"))
    case Skipped(text) => Ascii("<![") + (text + Ascii("]]>"))
  }

  function MiscTexts(ms: seq<Misc>): bytes {
    if ms == [] then [] else MiscText(ms[0]) + MiscTexts(ms[1..])
  }

  function MiscContents(m: Misc, c: Content): (r: Content)
    requires |c.items| == |c.parents|
    ensures |r.items| == |r.parents| && r.parent == c.parent
  {
    match m
    case Space(_) => c
    case Aside(text) => Pending(c, Comment, Kept(Remarks, text))
    case Direction(text) => AddedAll(c, ProcessingInstruction, Layout([], PiecesOf(Instructions, text)))
    case Type(_, _, text) => AddedAll(c, Doctype, Layout([], PiecesOf(Doctypes, text)))
    case Skipped(_) => c
  }

  function MiscsContents(ms: seq<Misc>, c: Content): (r: Content)
    requires |c.items| == |c.parents|
    ensures |r.items| == |r.parents| && r.parent == c.parent
    decreases |ms|
  {
    if ms == [] then c else MiscsContents(ms[1..], MiscContents(ms[0], c))
  }

  lemma MiscLiteralsAre()
    ensures Ascii("<!--") == [LT, BANG, MINUS, MINUS] && Ascii("<?") == [LT, QUESTION] && Ascii("<!") == [LT, BANG]
    ensures Ascii("<![") == [LT, BANG, LBRACKET]
  {
  }

  /** Behind the `<` of something that is not an element. */
  function Angled(state: nat): nat {
    if state == 0 then 1 else 46
  }

  lemma AsideRun(s: Session, state: nat, text: bytes) returns (t: Session)
    requires |s.content.items| == |s.content.parents| && state in {0, 45} && Outside(s.machine, state)
    requires AllChars(text) && !Occurs(Ascii("-->"), text)
    ensures Leads(s, [LT, BANG, MINUS, MINUS] + (text + [MINUS, MINUS, GT]), t) && Outside(t.machine, state)
    ensures t.content == Pending(s.content, Comment, Kept(Remarks, text))
  {
    LeadsByte(s, LT, InState(s, Angled(state)));
    OneMore(s, [LT], InState(s, Angled(state)), BANG, InState(s, Angled(state) + 1));
    OneMore(s, [LT] + [BANG], InState(s, Angled(state) + 1), MINUS, InState(s, 3));
    var c := Session(s.machine.(state := 4, text := [], lastChar := 0), s.content);
    OneMore(s, [LT] + [BANG] + [MINUS], InState(s, 3), MINUS, c);
    hide Leads, Advance, Pending, Occurs, Kept;
    assert [LT] + [BANG] + [MINUS] + [MINUS] == [LT, BANG, MINUS, MINUS];
    t := RemarkRead(c, text);
    LeadsOn(s, [LT, BANG, MINUS, MINUS], c, text + [MINUS, MINUS, GT], t);
  }

  lemma DirectionRun(s: Session, state: nat, text: bytes) returns (t: Session)
    requires |s.content.items| == |s.content.parents| && state in {0, 45} && Outside(s.machine, state)
    requires AllChars(text) && !Occurs(Ascii("?>"), text)
    ensures Leads(s, [LT, QUESTION] + (text + [QUESTION, GT]), t) && Outside(t.machine, state)
    ensures t.content == AddedAll(s.content, ProcessingInstruction, Layout([], PiecesOf(Instructions, text)))
  {
    var a := Session(s.machine.(state := 19, text := [], lastChar := 0), s.content);
    LeadsByte(s, LT, InState(s, Angled(state)));
    OneMore(s, [LT], InState(s, Angled(state)), QUESTION, a);
    hide Leads, Advance, Occurs, AddedAll, Layout;
    assert [LT] + [QUESTION] == [LT, QUESTION];
    t := InstructionRead(a, text);
    LeadsOn(s, [LT, QUESTION], a, text + [QUESTION, GT], t);
  }

  lemma TypeRun(s: Session, letters: bytes, white: bytes, text: bytes) returns (t: Session)
    requires |s.content.items| == |s.content.parents| && Outside(s.machine, 0) && IsMisc(Type(letters, white, text), true)
    ensures Leads(s, [LT, BANG] + letters + white + (text + [GT]), t) && Outside(t.machine, 0)
    ensures t.content == AddedAll(s.content, Doctype, Layout([], PiecesOf(Doctypes, text)))
  {
    var d := letters[0];
    LeadsByte(s, LT, InState(s, 1));
    OneMore(s, [LT], InState(s, 1), BANG, InState(s, 2));
    OneMore(s, [LT] + [BANG], InState(s, 2), d, InState(s, 7));
    TailSpells(letters);
    KeywordRead(InState(s, 7), "OCTYPE", letters[1..], 7);
    WhiteIs(white[0]);
    assert Advance(InState(s, 13), white[0]) == Going(InState(s, 14)) by {
      hide IsWhite;
    }
    LeadsByte(InState(s, 13), white[0], InState(s, 14));
    hide Leads, Advance, AddedAll, Layout, IsNameStart, Spells;
    WhiteFrom(InState(s, 13), white, InState(s, 14));
    t := DoctypeRead(InState(s, 14), text);
    assert [LT] + [BANG] + [d] + letters[1..] == [LT, BANG] + letters;
    LeadsOn(s, [LT] + [BANG] + [d], InState(s, 7), letters[1..], InState(s, 13));
    LeadsOn(s, [LT, BANG] + letters, InState(s, 13), white, InState(s, 14));
    LeadsOn(s, [LT, BANG] + letters + white, InState(s, 14), text + [GT], t);
  }

  lemma TailSpells(letters: bytes)
    requires |letters| == 7 && Spells(letters, "DOCTYPE")
    ensures Spells(letters[1..], "OCTYPE") && letters[0] in {0x44, 0x64}
  {
  }

  /** A conditional section is skipped up to its ending, whatever is in it. */
  lemma {:induction false} SkipRun(s: Session, held: nat, text: bytes)
    requires |s.content.items| == |s.content.parents| && held <= 2 && s.machine.state == 16 + held
    requires AllContinue(Data, held, text)
    ensures Leads(s, text, InState(s, 16 + HeldAfter(Data, held, text)))
    decreases |text|
  {
    hide IsChar, Leads;
    if text == [] {
      LeadsNowhere(s);
    } else {
      var t := InState(s, 16 + Held(Data, held, text[0]));
      LeadsByte(s, text[0], t);
      hide Advance, Continues, Held;
      SkipRun(t, Held(Data, held, text[0]), text[1..]);
      LeadsOn(s, [text[0]], t, text[1..], InState(s, 16 + HeldAfter(Data, held, text)));
      assert [text[0]] + text[1..] == text;
    }
  }

  lemma SkippedRun(s: Session, text: bytes)
    requires |s.content.items| == |s.content.parents| && Outside(s.machine, 0)
    requires AllChars(text) && !Occurs(Ascii("]]>"), text)
    ensures Leads(s, [LT, BANG, LBRACKET] + (text + [RBRACKET, RBRACKET, GT]), s)
  {
    LeadsByte(s, LT, InState(s, 1));
    OneMore(s, [LT], InState(s, 1), BANG, InState(s, 2));
    OneMore(s, [LT] + [BANG], InState(s, 2), LBRACKET, InState(s, 16));
    LeadsByte(InState(s, 18), GT, s);
    hide Leads, Advance, Occurs;
    UntilEnding(Data, text, Ascii("]]>"));
    var body := text + Marks(Data, 2);
    OneMark(Data);
    ContinueJoins(Data, 0, text, Marks(Data, 2));
    MarksContinue(Data, HeldAfter(Data, 0, text), 2);
    hide AllContinue, HeldAfter, Repeat;
    SkipRun(InState(s, 16), 0, body);
    LeadsOn(InState(s, 16), body, InState(s, 18), [GT], s);
    assert [LT] + [BANG] + [LBRACKET] == [LT, BANG, LBRACKET];
    assert body + [GT] == text + [RBRACKET, RBRACKET, GT] by {
      assert [RBRACKET, RBRACKET] + [GT] == [RBRACKET, RBRACKET, GT];
      Associative(text, [RBRACKET, RBRACKET], [GT]);
    }
    LeadsOn(s, [LT, BANG, LBRACKET], InState(s, 16), body + [GT], s);
  }

  lemma MiscRun(s: Session, state: nat, m: Misc) returns (t: Session)
    requires |s.content.items| == |s.content.parents| && state in {0, 45} && Outside(s.machine, state)
    requires IsMisc(m, state == 0)
    ensures Leads(s, MiscText(m), t) && Outside(t.machine, state) && t.content == MiscContents(m, s.content)
  {
    LiteralsAre();
    MiscLiteralsAre();
    hide Leads, Ascii, Pending, AddedAll, Kept, Layout, Occurs, AllChars, Spells, IsNameStart;
    match m
    case Space(white) =>
      WhiteRun(s, white);
      t := s;
    case Aside(text) => t := AsideRun(s, state, text);
    case Direction(text) => t := DirectionRun(s, state, text);
    case Type(letters, white, text) => t := TypeRun(s, letters, white, text);
    case Skipped(text) =>
      SkippedRun(s, text);
      t := s;
  }

  lemma {:induction false} MiscsRun(s: Session, state: nat, ms: seq<Misc>) returns (t: Session)
    requires |s.content.items| == |s.content.parents| && state in {0, 45} && Outside(s.machine, state)
    requires AreMisc(ms, state == 0)
    ensures Leads(s, MiscTexts(ms), t) && Outside(t.machine, state) && t.content == MiscsContents(ms, s.content)
    decreases |ms|
  {
    hide Leads, MiscText, MiscContents, IsMisc, Outside;
    if ms == [] {
      LeadsNowhere(s);
      t := s;
    } else {
      var a := MiscRun(s, state, ms[0]);
      t := MiscsRun(a, state, ms[1..]);
      LeadsOn(s, MiscText(ms[0]), a, MiscTexts(ms[1..]), t);
    }
  }

  /** A whole document. */
  datatype Markups = Markups(prolog: seq<Misc>, root: Markup, rest: seq<Misc>)

  predicate IsDocument(d: Markups) {
    AreMisc(d.prolog, true) && (d.root.Tagged? || d.root.Empty?) && IsMarkup(d.root) && AreMisc(d.rest, false)
  }

  function DocumentText(d: Markups): bytes {
    MiscTexts(d.prolog) + TextOf(d.root) + MiscTexts(d.rest)
  }

  function DocumentContents(d: Markups): Content {
    MiscsContents(d.rest, Contents(d.root, FRESH, MiscsContents(d.prolog, Content([], [], -1))))
  }

  /** The text of every document is accepted, and read as what it stands for. */
  lemma DocumentRead(d: Markups) returns (s: Session)
    requires IsDocument(d)
    ensures Run(Session(Initial(), Content([], [], -1)), DocumentText(d)) == Going(s)
    ensures s.content == DocumentContents(d) && s.machine.state == 45
  {
    var start := Session(Initial(), Content([], [], -1));
    LiteralsAre();
    hide Ascii, IsMarkup, Behind, Contents, Advance, Pending, MiscTexts, MiscsContents, AreMisc, Leads, Run;
    var a := MiscsRun(start, 0, d.prolog);
    var b := InState(a, 1);
    RootOpens(a);
    var c: Session;
    if d.root.Tagged? {
      c := TaggedRun(b, d.root, 0);
    } else {
      c := EmptyRun(b, d.root, 0);
    }
    LeadsOn(a, [LT], b, Behind(d.root), c);
    LeadsOn(start, MiscTexts(d.prolog), a, TextOf(d.root), c);
    s := MiscsRun(c, 45, d.rest);
    LeadsOn(start, MiscTexts(d.prolog) + TextOf(d.root), c, MiscTexts(d.rest), s);
    LeadsIs(start, DocumentText(d), s);
  }

  lemma LeadsIs(s: Session, input: bytes, t: Session)
    requires Leads(s, input, t)
    ensures Run(s, input) == Going(t)
  {
  }

  lemma RootOpens(s: Session)
    requires |s.content.items| == |s.content.parents| && Outside(s.machine, 0)
    ensures Leads(s, [LT], InState(s, 1)) && AtTag(InState(s, 1).machine, 0)
  {
    LeadsByte(s, LT, InState(s, 1));
  }
}

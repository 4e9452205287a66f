/** The XML parser at work on a document: what holds after every byte, however the input is cut. */
module XmlParser {
  import opened Bytes
  import opened XmlDocument
  import opened XmlForest
  import opened XmlMachine
  import opened Sequences

  datatype Session = Session(machine: Machine, content: Content)

  datatype Parsed = Stopped | Going(session: Session)

  function Initial(): Machine {
    Machine(0, 0, false, [], [], [], [], 0, 0)
  }

  /** One byte, by the group its state belongs to. */
  function Step(m: Machine, b: byte): Move {
    if m.state <= 18 then StepProlog(m, b)
    else if m.state <= 29 then StepTag(m, b)
    else if m.state <= 41 then StepData(m, b)
    else if m.depth > 0 || m.state >= 45 then StepEnd(m, b)
    else Refused
  }

  /** What a callback does to the document; an end tag fails when its name is not that of the open element. */
  function Perform(c: Content, callback: Callback): (r: Content)
    requires |c.items| == |c.parents| && Performs(c, callback)
    ensures |r.items| == |r.parents|
  {
    match callback
    case OnDoctype(text) => Added(c, Item(Doctype, text, []), false)
    case OnProcessingInstruction(text) => Added(c, Item(ProcessingInstruction, text, []), false)
    case OnComment(text) => Added(c, Item(Comment, text, []), false)
    case OnCharacterData(text) => Added(c, Item(Text, text, []), false)
    case OnElementStart(name, attributes) => Added(c, Item(Element, name, attributes), true)
    case OnEmptyElement(name, attributes) => Added(c, Item(Element, name, attributes), false)
    case OnElementEnd(_) => Closed(c)
  }

  predicate Performs(c: Content, callback: Callback)
    requires |c.items| == |c.parents|
  {
    callback.OnElementEnd? ==> 0 <= c.parent < |c.items| && Names(c.items[c.parent].text, callback.name)
  }

  function Advance(s: Session, b: byte): (r: Parsed)
    requires |s.content.items| == |s.content.parents|
    ensures r.Going? ==> |r.session.content.items| == |r.session.content.parents|
  {
    match Step(s.machine, b)
    case Refused => Stopped
    case Moved(m) => Going(Session(m, s.content))
    case Called(m, callback) =>
      if Performs(s.content, callback) then Going(Session(m, Perform(s.content, callback))) else Stopped
  }

  function Run(s: Session, input: bytes): (r: Parsed)
    requires |s.content.items| == |s.content.parents|
    ensures r.Going? ==> |r.session.content.items| == |r.session.content.parents|
    decreases |input|
  {
    if input == [] then Going(s)
    else
      match Advance(s, input[0])
      case Stopped => Stopped
      case Going(t) => Run(t, input[1..])
  }

  /** Where the input is cut makes no difference. */
  lemma {:induction false} RunJoins(s: Session, a: bytes, b: bytes)
    requires |s.content.items| == |s.content.parents|
    ensures Run(s, a + b) == match Run(s, a) case Stopped => Stopped case Going(t) => Run(t, b)
    decreases |a|
  {
    hide Advance;
    if a == [] {
      assert a + b == b;
    } else {
      assert (a + b)[1..] == a[1..] + b;
      if Advance(s, a[0]).Going? {
        RunJoins(Advance(s, a[0]).session, a[1..], b);
      }
    }
  }

  /** The bounds of the buffers, and which states are entered inside an element, before the root or after it. */
  predicate Good(m: Machine) {
    && m.state <= 47 && |m.text| <= TEXT_SIZE
    && (21 <= m.state <= 29 || 43 <= m.state <= 44 ==> 1 <= |m.element| <= NAME_MAX)
    && (23 <= m.state <= 28 ==> 1 <= |m.attributeName| <= NAME_MAX)
    && (m.depth > 0 ==> m.hasRoot)
    && (m.state <= 2 || 7 <= m.state <= 18 ==> !m.hasRoot)
    && (21 <= m.state ==> m.hasRoot)
    && (30 <= m.state <= 44 ==> m.depth > 0)
    && (45 <= m.state ==> m.depth == 0)
  }

  /** The root element exists once its start tag is complete. */
  predicate RootMade(m: Machine) {
    m.hasRoot && (m.depth > 0 || !(21 <= m.state <= 29))
  }

  /** The elements that are not inside another. */
  function Roots(items: seq<Item>, parents: Parents): nat
    requires |items| == |parents|
  {
    var n := |items|;
    if n == 0 then 0
    else Roots(items[..n - 1], parents[..n - 1]) + if items[n - 1].kind.Element? && parents[n - 1] == -1 then 1 else 0
  }

  /**
   * What holds after every byte: the machine is in order, its depth is the number of open elements, and there
   * is one element outside of others as soon as there is a root.
   */
  ghost predicate Fits(s: Session) {
    var c := s.content;
    && Good(s.machine)
    && |c.items| == |c.parents| && Rooted(c.parents) && -1 <= c.parent < |c.parents|
    && Depth(c.parents, c.parent) == s.machine.depth
    && Roots(c.items, c.parents) == if RootMade(s.machine) then 1 else 0
  }

  /** What a step does to the machine alone, with the callbacks it can make in its state. */
  ghost predicate Keeps(m: Machine, move: Move) {
    match move
    case Refused => true
    case Moved(n) => Good(n) && n.depth == m.depth && RootMade(n) == RootMade(m)
    case Called(n, callback) =>
      && Good(n)
      && match callback
         case OnElementStart(_, _) => n.depth == m.depth + 1 && RootMade(n) && (RootMade(m) <==> m.depth > 0)
         case OnEmptyElement(_, _) => n.depth == m.depth && RootMade(n) && (RootMade(m) <==> m.depth > 0)
         case OnElementEnd(_) => m.depth > 0 && n.depth == m.depth - 1 && RootMade(n)
         case _ => n.depth == m.depth && RootMade(n) == RootMade(m)
  }

  lemma PrologKeeps(m: Machine, b: byte)
    requires Good(m) && (m.state <= 2 || 7 <= m.state <= 18)
    ensures Keeps(m, StepProlog(m, b))
  {
    hide IsChar, IsWhite, IsNameStart, IsNameChar, Collect;
  }

  lemma CommentKeeps(m: Machine, b: byte)
    requires Good(m) && 3 <= m.state <= 6
    ensures Keeps(m, StepProlog(m, b))
  {
    hide IsChar, IsWhite, IsNameStart, IsNameChar, Collect;
  }

  lemma InstructionKeeps(m: Machine, b: byte)
    requires Good(m) && 19 <= m.state <= 20
    ensures Keeps(m, StepTag(m, b))
  {
    hide IsChar, IsWhite, IsNameStart, IsNameChar, Collect;
  }

  lemma TagKeeps(m: Machine, b: byte)
    requires Good(m) && 21 <= m.state <= 29
    ensures Keeps(m, StepTag(m, b))
  {
    hide IsChar, IsWhite, IsNameStart, IsNameChar, Collect;
  }

  lemma DataKeeps(m: Machine, b: byte)
    requires Good(m) && 30 <= m.state <= 38
    ensures Keeps(m, StepData(m, b))
  {
    hide IsChar, IsWhite, IsNameStart, IsNameChar, Collect;
  }

  lemma CDataKeeps(m: Machine, b: byte)
    requires Good(m) && 39 <= m.state <= 41
    ensures Keeps(m, StepData(m, b))
  {
    hide IsChar, IsWhite, IsNameStart, IsNameChar, Collect;
  }

  lemma EndKeeps(m: Machine, b: byte)
    requires Good(m) && 42 <= m.state
    ensures Keeps(m, StepEnd(m, b))
  {
    hide IsChar, IsWhite, IsNameStart, IsNameChar, Collect;
  }

  lemma StepKeeps(m: Machine, b: byte)
    requires Good(m)
    ensures Keeps(m, Step(m, b))
  {
    hide StepProlog, StepTag, StepData, StepEnd, Keeps;
    if 3 <= m.state <= 6 {
      CommentKeeps(m, b);
    } else if m.state <= 18 {
      PrologKeeps(m, b);
    } else if m.state <= 20 {
      InstructionKeeps(m, b);
    } else if m.state <= 29 {
      TagKeeps(m, b);
    } else if m.state <= 38 {
      DataKeeps(m, b);
    } else if m.state <= 41 {
      CDataKeeps(m, b);
    } else {
      EndKeeps(m, b);
    }
  }

  lemma RootsOneMore(items: seq<Item>, parents: Parents, item: Item, parent: int)
    requires |items| == |parents|
    ensures Roots(items + [item], parents + [parent])
            == Roots(items, parents) + if item.kind.Element? && parent == -1 then 1 else 0
  {
    assert (items + [item])[..|items|] == items && (parents + [parent])[..|items|] == parents;
  }

  /** Text joined with that of the last item opens no element and makes no root. */
  lemma MergedCounts(c: Content, item: Item)
    requires |c.items| == |c.parents| && Merges(c, item.kind)
    ensures var r := Added(c, item, false);
            r.parents == c.parents && r.parent == c.parent && Roots(r.items, r.parents) == Roots(c.items, c.parents)
  {
    var n := |c.items| - 1;
    var last := c.items[n].(text := c.items[n].text + item.text);
    assert c.items == c.items[..n] + [c.items[n]] && c.parents == c.parents[..n] + [c.parents[n]];
    assert c.items[n := last] == c.items[..n] + [last];
    RootsOneMore(c.items[..n], c.parents[..n], c.items[n], c.parents[n]);
    RootsOneMore(c.items[..n], c.parents[..n], last, c.parents[n]);
  }

  lemma DepthOfNew(p: Parents, parent: int)
    requires Rooted(p) && -1 <= parent < |p|
    ensures var q := p + [parent];
            Rooted(q) && Depth(q, parent) == Depth(p, parent) && Depth(q, |p|) == Depth(p, parent) + 1
  {
    assert Rooted(p + [parent]);
    PrefixDepth(p, parent, parent);
  }

  /** What adding an item does to the number of open elements and of roots. */
  lemma AddedCounts(c: Content, item: Item, opens: bool)
    requires |c.items| == |c.parents| && Rooted(c.parents) && -1 <= c.parent < |c.parents|
    requires opens ==> item.kind.Element?
    ensures var r := Added(c, item, opens);
            && Rooted(r.parents) && -1 <= r.parent < |r.parents|
            && Depth(r.parents, r.parent) == Depth(c.parents, c.parent) + (if opens then 1 else 0)
            && Roots(r.items, r.parents)
               == Roots(c.items, c.parents) + if item.kind.Element? && c.parent == -1 then 1 else 0
  {
    hide Roots, Depth, Rooted;
    if Merges(c, item.kind) {
      MergedCounts(c, item);
    } else {
      RootsOneMore(c.items, c.parents, item, c.parent);
      DepthOfNew(c.parents, c.parent);
    }
  }

  lemma PerformFits(s: Session, n: Machine, callback: Callback)
    requires Fits(s) && Keeps(s.machine, Called(n, callback)) && Performs(s.content, callback)
    ensures Fits(Session(n, Perform(s.content, callback)))
  {
    hide Good, RootMade, Roots, Added;
    var c := s.content;
    TopLevel(c.parents, c.parent);
    match callback
    case OnDoctype(text) => AddedCounts(c, Item(Doctype, text, []), false);
    case OnProcessingInstruction(text) => AddedCounts(c, Item(ProcessingInstruction, text, []), false);
    case OnComment(text) => AddedCounts(c, Item(Comment, text, []), false);
    case OnCharacterData(text) => AddedCounts(c, Item(Text, text, []), false);
    case OnElementStart(name, attributes) => AddedCounts(c, Item(Element, name, attributes), true);
    case OnEmptyElement(name, attributes) => AddedCounts(c, Item(Element, name, attributes), false);
    case OnElementEnd(_) =>
      assert RootMade(s.machine) by {
        InsideRoot(s.machine);
      }
  }

  lemma InsideRoot(m: Machine)
    requires Good(m) && m.depth > 0
    ensures RootMade(m)
  {
  }

  /** Every byte of every input keeps the session in order. */
  lemma AdvanceFits(s: Session, b: byte)
    requires Fits(s)
    ensures Advance(s, b).Going? ==> Fits(Advance(s, b).session)
  {
    hide Good, RootMade, Roots, Step, Performs, Perform;
    assert Good(s.machine);
    StepKeeps(s.machine, b);
    match Step(s.machine, b)
    case Refused =>
    case Moved(m) =>
    case Called(n, callback) =>
      if Performs(s.content, callback) {
        PerformFits(s, n, callback);
      }
  }

  lemma EndsInside(s: Session, b: byte)
    requires Fits(s)
    ensures var move := Step(s.machine, b); move.Called? && move.callback.OnElementEnd? ==> s.machine.depth > 0
  {
    hide Good, Step, Roots;
    assert Good(s.machine);
    StepKeeps(s.machine, b);
  }

  lemma DepthPositive(s: Session)
    requires Fits(s)
    ensures s.machine.state <= 47 && (42 <= s.machine.state <= 44 ==> s.machine.depth > 0)
  {
  }

  lemma DepthAgrees(s: Session)
    requires Fits(s)
    ensures Rooted(s.content.parents) && -1 <= s.content.parent < |s.content.parents|
    ensures Depth(s.content.parents, s.content.parent) == s.machine.depth
  {
  }

  /** The content read from the bytes before the one that was refused. */
  ghost predicate ReadBefore(s: Session, data: bytes, content: Content)
    requires |s.content.items| == |s.content.parents|
  {
    exists k: nat :: ReadUpTo(s, data, k, content)
  }

  ghost predicate ReadUpTo(s: Session, data: bytes, k: nat, content: Content)
    requires |s.content.items| == |s.content.parents|
  {
    && k < |data| && Run(s, data[..k]).Going? && Run(s, data[..k]).session.content == content
    && Run(s, data[..k + 1]).Stopped?
  }

  lemma StoppedAt(s: Session, data: bytes, k: nat)
    requires |s.content.items| == |s.content.parents|
    requires k < |data| && Run(s, data[..k]).Going? && Run(s, data[..k + 1]).Stopped?
    ensures ReadBefore(s, data, Run(s, data[..k]).session.content)
  {
    hide Run;
    assert ReadUpTo(s, data, k, Run(s, data[..k]).session.content);
  }

  /** What has come of a byte: the outcome, the fields and the document afterwards. */
  ghost predicate Done(move: Move, before: Content, ok: bool, m: Machine, after: Content)
    requires |before.items| == |before.parents|
  {
    match move
    case Refused => !ok && after == before
    case Moved(n) => ok && m == n && after == before
    case Called(n, callback) =>
      if Performs(before, callback) then ok && m == n && after == Perform(before, callback) else !ok && after == before
  }

  lemma DoneIs(s: Session, b: byte, ok: bool, m: Machine, after: Content)
    requires |s.content.items| == |s.content.parents| && Done(Step(s.machine, b), s.content, ok, m, after)
    ensures ok == Advance(s, b).Going? && (ok ==> Advance(s, b).session == Session(m, after))
    ensures !ok ==> after == s.content
  {
    hide Step, Perform, Performs;
  }

  class Parser {
    const document: Document

    var state: nat
    var depth: nat
    var hasRoot: bool
    var element: bytes
    var attributes: seq<Attribute>
    var attributeName: bytes
    var text: bytes
    var lastChar: byte
    var quotes: byte

    ghost function Fields(): Machine
      reads this
    {
      Machine(state, depth, hasRoot, element, attributes, attributeName, text, lastChar, quotes)
    }

    ghost function Now(): (s: Session)
      requires document.Valid()
      reads this, document
      ensures |s.content.items| == |s.content.parents|
    {
      Session(Fields(), document.View())
    }

    ghost predicate Valid()
      reads this, document
    {
      document.Valid() && document.OpenElements() == depth && Fits(Now())
    }

    constructor (document: Document)
      requires document.Valid() && document.View() == Content([], [], -1)
      ensures Valid() && this.document == document && Now() == Session(Initial(), Content([], [], -1))
    {
      this.document := document;
      state, depth, hasRoot := 0, 0, false;
      element, attributes, attributeName, text := [], [], [], [];
      lastChar, quotes := 0, 0;
    }

    /**
     * Parses a piece of the input, byte by byte. When a byte is refused the document is still in order, and holds
     * what was read before it.
     */
    method ParseChunk(data: bytes) returns (ok: bool)
      requires Valid()
      modifies this, document
      ensures ok == Run(old(Now()), data).Going?
      ensures ok ==> Valid() && Run(old(Now()), data) == Going(Now())
      ensures document.Valid()
      ensures !ok ==> ReadBefore(old(Now()), data, document.View())
    {
      hide Fits, Advance, Run;
      RunNothing(Now());
      assert data[..0] == [];
      ok := true;
      for i := 0 to |data|
        invariant Valid() && Run(old(Now()), data[..i]) == Going(Now())
      {
        RunByte(old(Now()), data, i, Now());
        ok := ParseByte(data[i]);
        if !ok {
          StoppedAt(old(Now()), data, i);
          return;
        }
      }
      assert data[..|data|] == data;
    }

    /** The switch over the states. */
    method ParseByte(b: byte) returns (ok: bool)
      requires Valid()
      modifies this, document
      ensures ok == Advance(old(Now()), b).Going?
      ensures ok ==> Valid() && Now() == Advance(old(Now()), b).session
      ensures document.Valid() && (!ok ==> document.View() == old(document.View()))
    {
      hide Fits, StepProlog, StepTag, StepData, StepEnd, Performs, Perform, Keeps, Done, Advance, Sound, DocumentOf;
      ghost var s := Now();
      AdvanceFits(s, b);
      DepthPositive(s);
      if state <= 2 || 7 <= state <= 15 {
        ok := ReadProlog(b);
      } else if state <= 6 {
        ok := ReadComment(b);
      } else if state <= 18 {
        ok := ReadConditional(b);
      } else if state <= 20 {
        ok := ReadInstruction(b);
      } else if state <= 25 {
        ok := ReadTag(b);
      } else if state <= 29 {
        ok := ReadValue(b);
      } else if state <= 38 {
        ok := ReadData(b);
      } else if state <= 41 {
        ok := ReadSection(b);
      } else {
        ok := ReadEnd(b);
      }
      DoneIs(s, b, ok, Fields(), document.View());
      if ok {
        DepthAgrees(Now());
      }
    }

    /** Hands over what is in the buffer if there is no room for some bytes more. */
    method MakeRoom(kind: Kind, need: nat)
      requires document.Valid() && document.OpenElements() == depth && !kind.Element?
      modifies this`text, document
      ensures document.Valid()
      ensures var full := |old(text)| + need > TEXT_SIZE;
              && text == (if full then [] else old(text))
              && document.View() == if full then Added(old(document.View()), Item(kind, old(text), []), false) else old(document.View())
    {
      hide Added, Sound, DocumentOf;
      if |text| + need > TEXT_SIZE {
        HandOver(kind);
        text := [];
      }
    }

    method HandOver(kind: Kind)
      requires document.Valid() && document.OpenElements() == depth && !kind.Element?
      modifies document
      ensures document.Valid() && document.View() == Added(old(document.View()), Item(kind, text, []), false)
    {
      hide Added, Sound, DocumentOf;
      match kind {
        case Comment => document.OnComment(text, depth);
        case ProcessingInstruction => document.OnProcessingInstruction(text, depth);
        case Doctype => document.OnDoctype(text, depth);
        case Text => document.OnCharacterData(text, depth);
      }
    }

    /** Puts bytes into the buffer, behind a space if there was white space before them. */
    method Gather(kind: Kind, need: nat, added: bytes)
      requires document.Valid() && document.OpenElements() == depth && !kind.Element?
      modifies this`text, document
      ensures document.Valid()
      ensures var full := |old(text)| + need > TEXT_SIZE;
              && text == (if full then [] else if IsWhite(lastChar) && old(text) != [] then old(text) + [SPACE] else old(text))
                         + added
              && document.View() == if full then Added(old(document.View()), Item(kind, old(text), []), false) else old(document.View())
    {
      hide Added, Sound, DocumentOf, IsWhite;
      MakeRoom(kind, need);
      if IsWhite(lastChar) && |text| > 0 {
        text := text + [SPACE];
      }
      text := text + added;
    }

    /** The letters of a keyword come in either case. */
    method Letter(c: byte, upper: char, lower: char, next: nat) returns (ok: bool)
      modifies this`state
      ensures ok <==> c as char == upper || c as char == lower
      ensures state == if ok then next else old(state)
    {
      ok := c as char == upper || c as char == lower;
      if ok {
        state := next;
      }
    }

    /** States 0 to 2 and 7 to 15: outside of the root element, and the document type. */
    method ReadProlog(c: byte) returns (ok: bool)
      requires document.Valid() && document.OpenElements() == depth && (state <= 2 || 7 <= state <= 15)
      modifies this, document
      ensures document.Valid()
      ensures Done(StepProlog(old(Fields()), c), old(document.View()), ok, Fields(), document.View())
    {
      hide IsChar, IsWhite, IsNameStart, Added, Sound, DocumentOf;
      ok := true;
      match state {
        case 0 =>
          if c == LT {
            state := 1;
          } else {
            ok := IsWhite(c);
          }
        case 1 =>
          if IsNameStart(c) {
            element, hasRoot, state := [c], true, 21;
          } else if c == BANG {
            state := 2;
          } else if c == QUESTION {
            text, lastChar, state := [], 0, 19;
          } else {
            ok := false;
          }
        case 2 =>
          if c == MINUS {
            state := 3;
          } else if c == 0x44 || c == 0x64 {
            state := 7;
          } else if c == LBRACKET {
            state := 16;
          } else {
            ok := false;
          }
        case 7 => ok := Letter(c, 'O', 'o', 8);
        case 8 => ok := Letter(c, 'C', 'c', 9);
        case 9 => ok := Letter(c, 'T', 't', 10);
        case 10 => ok := Letter(c, 'Y', 'y', 11);
        case 11 => ok := Letter(c, 'P', 'p', 12);
        case 12 => ok := Letter(c, 'E', 'e', 13);
        case 13 =>
          ok := IsWhite(c);
          if ok {
            state := 14;
          }
        case 14 =>
          if IsNameStart(c) {
            text, lastChar, state := [c], c, 15;
          } else {
            ok := IsWhite(c);
          }
        case _ =>
          if c == GT {
            HandOver(Doctype);
            state := 0;
          } else if IsChar(c) {
            if !IsWhite(c) {
              Gather(Doctype, 2, [c]);
            }
            lastChar := c;
          } else {
            ok := false;
          }
      }
    }

    /** States 16 to 18: a conditional section. */
    method ReadConditional(c: byte) returns (ok: bool)
      requires document.Valid() && 16 <= state <= 18
      modifies this
      ensures document.Valid()
      ensures Done(StepProlog(old(Fields()), c), old(document.View()), ok, Fields(), document.View())
    {
      hide IsChar, IsWhite, Sound, DocumentOf;
      ok := true;
      match state {
        case 16 =>
          if c == RBRACKET {
            state := 17;
          } else {
            ok := IsChar(c);
          }
        case 17 =>
          if c == RBRACKET {
            state := 18;
          } else if IsChar(c) {
            state := 16;
          } else {
            ok := false;
          }
        case _ =>
          if c == GT {
            state := 0;
          } else if IsChar(c) {
            if c != RBRACKET {
              state := 16;
            }
          } else {
            ok := false;
          }
      }
    }

    /** States 3 to 6: a comment, with two hyphens held back. */
    method ReadComment(c: byte) returns (ok: bool)
      requires document.Valid() && document.OpenElements() == depth && 3 <= state <= 6
      modifies this, document
      ensures document.Valid()
      ensures Done(StepProlog(old(Fields()), c), old(document.View()), ok, Fields(), document.View())
    {
      hide IsChar, IsWhite, Added, Sound, DocumentOf;
      ok := true;
      match state {
        case 3 =>
          if c == MINUS {
            text, lastChar, state := [], 0, 4;
          } else {
            ok := false;
          }
        case 4 =>
          if c == MINUS {
            state := 5;
          } else if IsChar(c) {
            if !IsWhite(c) {
              Gather(Comment, 2, [c]);
            }
            lastChar := c;
          } else {
            ok := false;
          }
        case 5 =>
          if c == MINUS {
            state := 6;
          } else if IsChar(c) {
            Gather(Comment, 3, if IsWhite(c) then [MINUS] else [MINUS, c]);
            lastChar, state := c, 4;
          } else {
            ok := false;
          }
        case _ =>
          if c == GT {
            if |text| > 0 {
              HandOver(Comment);
            }
            GoOn();
          } else if c == MINUS {
            Gather(Comment, 2, [MINUS]);
            lastChar := MINUS;
          } else if IsChar(c) {
            Gather(Comment, 4, if IsWhite(c) then [MINUS, MINUS] else [MINUS, MINUS, c]);
            lastChar, state := c, 4;
          } else {
            ok := false;
          }
      }
    }

    /** Where the parser goes after a comment or a processing instruction. */
    method GoOn()
      modifies this`state, this`text, this`lastChar
      ensures Fields() == Resume(old(Fields()))
    {
      if !hasRoot {
        state := 0;
      } else if depth > 0 {
        text, lastChar, state := [], 0, 30;
      } else {
        state := 45;
      }
    }

    /** States 19 and 20: a processing instruction. */
    method ReadInstruction(c: byte) returns (ok: bool)
      requires document.Valid() && document.OpenElements() == depth && 19 <= state <= 20
      modifies this, document
      ensures document.Valid()
      ensures Done(StepTag(old(Fields()), c), old(document.View()), ok, Fields(), document.View())
    {
      hide IsChar, IsWhite, Added, Sound, DocumentOf;
      ok := true;
      if state == 19 {
        if c == QUESTION {
          state := 20;
        } else if IsChar(c) {
          if !IsWhite(c) {
            Gather(ProcessingInstruction, 2, [c]);
          }
          lastChar := c;
        } else {
          ok := false;
        }
      } else if c == GT {
        if |text| > 0 {
          HandOver(ProcessingInstruction);
        }
        GoOn();
      } else if c == QUESTION {
        Gather(ProcessingInstruction, 2, [QUESTION]);
        lastChar := QUESTION;
      } else if IsChar(c) {
        Gather(ProcessingInstruction, 3, if IsWhite(c) then [QUESTION] else [QUESTION, c]);
        lastChar, state := c, 19;
      } else {
        ok := false;
      }
    }

    /** A start tag is complete. */
    method Open()
      requires document.Valid() && document.OpenElements() == depth
      modifies this`text, this`depth, this`lastChar, this`state, document
      ensures document.Valid()
      ensures document.View() == Added(old(document.View()), Item(Element, element, attributes), true)
      ensures Fields() == old(Fields()).(state := 30, depth := old(depth) + 1, text := [], lastChar := 0)
    {
      hide Added, Sound, DocumentOf;
      document.OnElementStart(element, attributes, depth);
      text, depth, lastChar, state := [], depth + 1, 0, 30;
    }

    /** States 21 to 25: start tags, up to the value of an attribute. */
    method ReadTag(c: byte) returns (ok: bool)
      requires document.Valid() && document.OpenElements() == depth && 21 <= state <= 25
      modifies this, document
      ensures document.Valid()
      ensures Done(StepTag(old(Fields()), c), old(document.View()), ok, Fields(), document.View())
    {
      hide IsChar, IsWhite, IsNameStart, IsNameChar, Added, Sound, DocumentOf;
      ok := true;
      match state {
        case 21 =>
          if IsWhite(c) {
            attributes, state := [], 22;
          } else if c == GT {
            attributes := [];
            Open();
          } else if c == SLASH {
            attributes, state := [], 29;
          } else if IsNameChar(c) && |element| + 1 < NAME_MAX + 1 {
            element := element + [c];
          } else {
            ok := false;
          }
        case 22 =>
          if IsNameStart(c) {
            attributeName, state := [c], 23;
          } else if c == GT {
            Open();
          } else if c == SLASH {
            state := 29;
          } else {
            ok := IsWhite(c);
          }
        case 23 =>
          if IsWhite(c) {
            state := 24;
          } else if c == EQ {
            state := 25;
          } else if IsNameChar(c) && |attributeName| + 1 < NAME_MAX + 1 {
            attributeName := attributeName + [c];
          } else {
            ok := false;
          }
        case 24 =>
          if c == EQ {
            state := 25;
          } else {
            ok := IsWhite(c);
          }
        case _ =>
          if c == DOUBLE_QUOTE || c == SINGLE_QUOTE {
            quotes, state := c, 26;
          } else {
            ok := IsWhite(c);
          }
      }
    }

    /** States 26 to 29: the value of an attribute and what may follow it. */
    method ReadValue(c: byte) returns (ok: bool)
      requires document.Valid() && document.OpenElements() == depth && 26 <= state <= 29
      modifies this, document
      ensures document.Valid()
      ensures Done(StepTag(old(Fields()), c), old(document.View()), ok, Fields(), document.View())
    {
      hide IsChar, IsWhite, Added, Sound, DocumentOf;
      ok := true;
      match state {
        case 26 =>
          if c == quotes {
            attributes, state := attributes + [Attribute(attributeName, [])], 28;
          } else if IsChar(c) {
            text, state := [c], 27;
          } else {
            ok := false;
          }
        case 27 =>
          if c == quotes {
            attributes, state := attributes + [Attribute(attributeName, text)], 28;
          } else if IsChar(c) && |text| + 1 <= TEXT_SIZE {
            text := text + [c];
          } else {
            ok := false;
          }
        case 28 =>
          if IsWhite(c) {
            state := 22;
          } else if c == SLASH {
            state := 29;
          } else if c == GT {
            Open();
          } else {
            ok := false;
          }
        case _ =>
          if c == GT {
            document.OnEmptyElement(element, attributes, depth);
            if depth > 0 {
              text, lastChar, state := [], 0, 30;
            } else {
              state := 45;
            }
          } else {
            ok := false;
          }
      }
    }

    /** States 30 to 38: character data and what may begin in it. */
    method ReadData(c: byte) returns (ok: bool)
      requires document.Valid() && document.OpenElements() == depth && 30 <= state <= 38
      modifies this, document
      ensures document.Valid()
      ensures Done(StepData(old(Fields()), c), old(document.View()), ok, Fields(), document.View())
    {
      hide IsWhite, IsNameStart, Added, Sound, DocumentOf;
      ok := true;
      match state {
        case 30 =>
          if c == LT {
            if |text| > 0 {
              HandOver(Text);
            }
            state := 31;
          } else {
            if !IsWhite(c) {
              Gather(Text, 2, [c]);
            }
            lastChar := c;
          }
        case 31 =>
          if IsNameStart(c) {
            element, state := [c], 21;
          } else if c == BANG {
            state := 32;
          } else if c == QUESTION {
            text, lastChar, state := [], 0, 19;
          } else if c == SLASH {
            state := 42;
          } else {
            ok := false;
          }
        case 32 =>
          if c == LBRACKET {
            state := 33;
          } else if c == MINUS {
            state := 3;
          } else {
            ok := false;
          }
        case 33 => ok := Letter(c, 'C', 'c', 34);
        case 34 => ok := Letter(c, 'D', 'd', 35);
        case 35 => ok := Letter(c, 'A', 'a', 36);
        case 36 => ok := Letter(c, 'T', 't', 37);
        case 37 => ok := Letter(c, 'A', 'a', 38);
        case _ =>
          if c == LBRACKET {
            text := if IsWhite(lastChar) && |text| > 0 then [SPACE] else [];
            state := 39;
          } else {
            ok := false;
          }
      }
    }

    /** States 39 to 41: a CDATA section, with two brackets held back. */
    method ReadSection(c: byte) returns (ok: bool)
      requires document.Valid() && document.OpenElements() == depth && 39 <= state <= 41
      modifies this, document
      ensures document.Valid()
      ensures Done(StepData(old(Fields()), c), old(document.View()), ok, Fields(), document.View())
    {
      hide IsChar, IsWhite, Added, Sound, DocumentOf;
      ok := true;
      match state {
        case 39 =>
          if c == RBRACKET {
            state := 40;
          } else if IsChar(c) {
            MakeRoom(Text, 1);
            text := text + [c];
          } else {
            ok := false;
          }
        case 40 =>
          if c == RBRACKET {
            state := 41;
          } else if IsChar(c) {
            MakeRoom(Text, 2);
            text, state := text + [RBRACKET, c], 39;
          } else {
            ok := false;
          }
        case _ =>
          if c == GT {
            lastChar, state := 0, 30;
          } else if c == RBRACKET {
            MakeRoom(Text, 1);
            text := text + [RBRACKET];
          } else if IsChar(c) {
            MakeRoom(Text, 3);
            text, state := text + [RBRACKET, RBRACKET, c], 39;
          } else {
            ok := false;
          }
      }
    }

    /** An end tag is complete. */
    method Close() returns (ok: bool)
      requires document.Valid() && document.OpenElements() == depth > 0
      modifies this`text, this`depth, this`lastChar, this`state, document
      ensures document.Valid()
      ensures Done(EndElement(old(Fields())), old(document.View()), ok, Fields(), document.View())
    {
      hide Added, Closed, Names, Depth, Sound, DocumentOf;
      ok := document.OnElementEnd(element, depth);
      if !ok {
        return;
      }
      depth := depth - 1;
      if depth > 0 {
        text, lastChar, state := [], 0, 30;
      } else {
        state := 45;
      }
    }

    /** States 42 to 47: end tags and what may follow the root element. */
    method ReadEnd(c: byte) returns (ok: bool)
      requires document.Valid() && document.OpenElements() == depth && 42 <= state <= 47 && (depth > 0 || state >= 45)
      modifies this, document
      ensures document.Valid()
      ensures Done(StepEnd(old(Fields()), c), old(document.View()), ok, Fields(), document.View())
    {
      hide IsWhite, IsNameStart, IsNameChar, Closed, Names, Sound, DocumentOf, Performs, Perform;
      ok := true;
      match state {
        case 42 =>
          if IsNameStart(c) {
            element, state := [c], 43;
          } else {
            ok := false;
          }
        case 43 =>
          if c == GT {
            ok := Close();
          } else if IsNameChar(c) {
            if |element| + 1 >= NAME_MAX + 1 {
              return false;
            }
            element := element + [c];
          } else if IsWhite(c) {
            state := 44;
          } else {
            ok := false;
          }
        case 44 =>
          if c == GT {
            ok := Close();
          } else {
            ok := IsWhite(c);
          }
        case 45 =>
          if c == LT {
            state := 46;
          } else {
            ok := IsWhite(c);
          }
        case 46 =>
          if c == BANG {
            state := 47;
          } else if c == QUESTION {
            text, lastChar, state := [], 0, 19;
          } else {
            ok := false;
          }
        case _ =>
          if c == MINUS {
            state := 3;
          } else {
            ok := false;
          }
      }
    }

    /** Whether the input may end here: before the root element, or after it. */
    method EndOfChunk() returns (ok: bool)
      ensures ok == (state == 0 || state == 45)
    {
      ok := state == 0 || state == 45;
    }

    /** Parses a whole file read in pieces; the outcome does not depend on the pieces. */
    method ParseFile(chunks: seq<bytes>) returns (ok: bool)
      requires Valid()
      modifies this, document
      ensures var r := Run(old(Now()), Flatten(chunks));
              && ok == (r.Going? && r.session.machine.state in {0, 45})
              && (ok ==> Valid() && r.session == Now())
      ensures document.Valid()
      ensures ok ==> document.parent == -1
      ensures ok ==> Roots(document.View().items, document.View().parents) == if hasRoot then 1 else 0
    {
      hide Run, Roots, Fits, Sound, DocumentOf, Depth, Rooted;
      ok := true;
      RunNothing(Now());
      assert Flatten(chunks[..0]) == [];
      for i := 0 to |chunks|
        invariant Valid() && Run(old(Now()), Flatten(chunks[..i])) == Going(Now())
      {
        FlattenUpTo(chunks, i);
        RunJoins(old(Now()), Flatten(chunks[..i]), chunks[i]);
        ghost var before := Now();
        ok := ParseChunk(chunks[i]);
        if !ok {
          RunStops(old(Now()), chunks, i + 1);
          return;
        }
      }
      assert chunks[..|chunks|] == chunks;
      ok := EndOfChunk();
      if ok {
        AtEnd(Now());
      }
    }
  }

  lemma RunNothing(s: Session)
    requires |s.content.items| == |s.content.parents|
    ensures Run(s, []) == Going(s)
  {
  }

  /** One byte more of a piece. */
  lemma RunByte(s: Session, data: bytes, i: nat, t: Session)
    requires |s.content.items| == |s.content.parents| && i < |data| && Run(s, data[..i]) == Going(t)
    ensures Run(s, data[..i + 1]) == Advance(t, data[i])
    ensures Advance(t, data[i]).Stopped? ==> Run(s, data).Stopped?
  {
    hide Advance;
    assert data[..i + 1] == data[..i] + [data[i]] && data == data[..i + 1] + data[i + 1..];
    RunJoins(s, data[..i], [data[i]]);
    RunJoins(s, data[..i + 1], data[i + 1..]);
    assert [data[i]][1..] == [];
  }

  /** Once the parser has stopped, no more input changes that. */
  lemma {:induction false} RunStops(s: Session, chunks: seq<bytes>, i: nat)
    requires |s.content.items| == |s.content.parents| && i <= |chunks| && Run(s, Flatten(chunks[..i])).Stopped?
    ensures Run(s, Flatten(chunks)).Stopped?
    decreases |chunks| - i
  {
    hide Run;
    if i == |chunks| {
      assert chunks[..i] == chunks;
    } else {
      FlattenUpTo(chunks, i);
      RunJoins(s, Flatten(chunks[..i]), chunks[i]);
      RunStops(s, chunks, i + 1);
    }
  }

  /** For example, a file of nothing but white space may end where it does, without any element. */
  lemma {:induction false} NothingIsAccepted(input: bytes)
    requires forall i :: 0 <= i < |input| ==> IsWhite(input[i])
    ensures Run(Session(Initial(), Content([], [], -1)), input) == Going(Session(Initial(), Content([], [], -1)))
    ensures Initial().state in {0, 45}
    decreases |input|
  {
    if input != [] {
      var s := Session(Initial(), Content([], [], -1));
      assert input[0] != LT && Advance(s, input[0]) == Going(s);
      NothingIsAccepted(input[1..]);
    }
  }

  lemma AtEnd(s: Session)
    requires Fits(s) && s.machine.state in {0, 45}
    ensures s.content.parent == -1
    ensures Roots(s.content.items, s.content.parents) == if s.machine.hasRoot then 1 else 0
  {
    TopLevel(s.content.parents, s.content.parent);
  }
}

/** How the parser reads texts with white space in them, in character data, comments, processing instructions and CDATA. */
module XmlReading {
  import opened Bytes
  import opened Sequences
  import opened XmlDocument
  import opened XmlMachine
  import opened XmlParser
  import opened XmlText

  ghost predicate Leads(s: Session, input: bytes, t: Session): (leads: bool)
    ensures leads ==> |s.content.items| == |s.content.parents| && |t.content.items| == |t.content.parents|
  {
    |s.content.items| == |s.content.parents| && Run(s, input) == Going(t)
  }

  lemma LeadsOn(s: Session, a: bytes, t: Session, b: bytes, u: Session)
    requires Leads(s, a, t) && Leads(t, b, u)
    ensures Leads(s, a + b, u)
  {
    hide Run;
    RunJoins(s, a, b);
  }

  lemma LeadsByte(s: Session, b: byte, t: Session)
    requires |s.content.items| == |s.content.parents| && Advance(s, b) == Going(t)
    ensures Leads(s, [b], t)
  {
    hide Advance;
    assert [b][1..] == [];
    RunNothing(t);
  }

  lemma LeadsNowhere(s: Session)
    requires |s.content.items| == |s.content.parents|
    ensures Leads(s, [], s)
  {
  }

  /** The document with the text still in the parser's buffer. */
  function Pending(c: Content, kind: Kind, text: bytes): (r: Content)
    requires |c.items| == |c.parents|
    ensures |r.items| == |r.parents| && r.parent == c.parent
  {
    if text == [] then c else Added(c, Item(kind, text, []), false)
  }

  /** Two texts one after the other are one. */
  lemma AddedTwice(c: Content, kind: Kind, a: bytes, b: bytes)
    requires |c.items| == |c.parents| && (kind.Text? || kind.Comment?)
    ensures Added(Added(c, Item(kind, a, []), false), Item(kind, b, []), false) == Added(c, Item(kind, a + b, []), false)
  {
    var n := |c.items|;
    if Merges(c, kind) {
      assert c.items[n - 1].text + a + b == c.items[n - 1].text + (a + b);
    } else {
      var d := Added(c, Item(kind, a, []), false);
      assert (c.items + [Item(kind, a, [])])[n := Item(kind, a + b, [])] == c.items + [Item(kind, a + b, [])];
    }
  }

  /** So it makes no difference where a text is cut. */
  lemma PendingTwice(c: Content, kind: Kind, a: bytes, b: bytes)
    requires |c.items| == |c.parents| && (kind.Text? || kind.Comment?)
    ensures Pending(Pending(c, kind, a), kind, b) == Pending(c, kind, a + b)
  {
    hide Added;
    AddedTwice(c, kind, a, b);
    assert [] + b == b && a + [] == a;
  }

  /** The document with items of one kind and the given texts. */
  function AddedAll(c: Content, kind: Kind, texts: seq<bytes>): (r: Content)
    requires |c.items| == |c.parents|
    ensures |r.items| == |r.parents| && r.parent == c.parent
    decreases |texts|
  {
    if texts == [] then c else AddedAll(Pending(c, kind, texts[0]), kind, texts[1..])
  }

  lemma {:induction false} AddedAllJoins(c: Content, kind: Kind, a: seq<bytes>, b: seq<bytes>)
    requires |c.items| == |c.parents|
    ensures AddedAll(c, kind, a + b) == AddedAll(AddedAll(c, kind, a), kind, b)
    decreases |a|
  {
    hide Pending;
    if a == [] {
      assert a + b == b;
    } else {
      assert (a + b)[1..] == a[1..] + b;
      AddedAllJoins(Pending(c, kind, a[0]), kind, a[1..], b);
    }
  }

  /** Character data and comments that are handed over in several texts are one item. */
  lemma {:induction false} AddedAllFlat(c: Content, kind: Kind, texts: seq<bytes>)
    requires |c.items| == |c.parents| && (kind.Text? || kind.Comment?)
    ensures AddedAll(c, kind, texts) == Pending(c, kind, Flatten(texts))
    decreases |texts|
  {
    if texts != [] {
      hide Pending;
      AddedAllFlat(Pending(c, kind, texts[0]), kind, texts[1..]);
      PendingTwice(c, kind, texts[0], Flatten(texts[1..]));
    } else {
      assert Flatten(texts) == [];
    }
  }

  function BaseState(mode: Mode): nat {
    match mode
    case Characters => 30
    case Remarks => 4
    case Instructions => 19
    case Doctypes => 15
    case Data => 39
  }

  function KindOf(mode: Mode): Kind {
    match mode
    case Characters => Text
    case Remarks => Comment
    case Instructions => ProcessingInstruction
    case Doctypes => Doctype
    case Data => Text
  }

  /** The machine reads a text, and holds back some marks. */
  predicate Reads(m: Machine, mode: Mode, held: nat) {
    held <= Limit(mode) && m.state == BaseState(mode) + held
  }

  /** There is white space before what comes next. */
  predicate Apart(m: Machine, mode: Mode) {
    mode != Data && IsWhite(m.lastChar)
  }

  /** A byte that neither ends the text nor is refused in it. */
  predicate Continues(mode: Mode, held: nat, c: byte) {
    if mode == Characters then c != LT else IsChar(c) && !(c == GT && held == Limit(mode))
  }

  predicate AllContinue(mode: Mode, held: nat, x: bytes)
    decreases |x|
  {
    x == [] || (Continues(mode, held, x[0]) && AllContinue(mode, Held(mode, held, x[0]), x[1..]))
  }

  /** The session after a byte. */
  function Next(s: Session, mode: Mode, held: nat, c: byte): (t: Session)
    requires |s.content.items| == |s.content.parents| && held <= Limit(mode)
  {
    var m := s.machine;
    var blocks := Layout(m.text, PieceOf(mode, Apart(m, mode), held, c));
    var n := |blocks| - 1;
    var lastChar := if mode == Data || (IsMark(mode, c) && held < Limit(mode)) then m.lastChar else c;
    Session(m.(state := BaseState(mode) + Held(mode, held, c), text := blocks[n], lastChar := lastChar),
            AddedAll(s.content, KindOf(mode), blocks[..n]))
  }

  lemma WhiteIs(c: byte)
    ensures IsWhite(c) <==> IsSpace(c)
    ensures IsWhite(c) ==> c != LT && c != GT && c != MINUS && c != QUESTION && c != RBRACKET && IsChar(c)
  {
  }

  lemma LayoutOne(text: bytes, p: Piece)
    ensures Layout(text, [p]) == if |text| + p.need > TEXT_SIZE then [text] + [p.data] else [Put(text, p)]
    ensures ([text] + [p.data])[..1] == [text]
  {
    assert [p][1..] == [];
  }

  lemma AddedOne(c: Content, kind: Kind, text: bytes)
    requires |c.items| == |c.parents|
    ensures AddedAll(c, kind, [text]) == Pending(c, kind, text)
  {
    hide Pending;
    assert |[text][1..]| == 0;
  }

  /** What a byte does that puts a piece into the buffer, or nothing. */
  lemma NextPiece(s: Session, mode: Mode, held: nat, c: byte, p: Piece)
    requires |s.content.items| == |s.content.parents| && held <= Limit(mode) && IsPiece(p)
    requires PieceOf(mode, Apart(s.machine, mode), held, c) == [p]
    ensures var m, full := Next(s, mode, held, c).machine, |s.machine.text| + p.need > TEXT_SIZE;
            && m == s.machine.(state := BaseState(mode) + Held(mode, held, c), lastChar := if mode == Data then m.lastChar else c,
                               text := if full then p.data else Put(s.machine.text, p))
            && (mode == Data ==> m.lastChar == s.machine.lastChar)
            && Next(s, mode, held, c).content
               == if full then Added(s.content, Item(KindOf(mode), s.machine.text, []), false) else s.content
  {
    hide Added;
    LayoutOne(s.machine.text, p);
    hide Layout;
    AddedOne(s.content, KindOf(mode), s.machine.text);
  }

  lemma NextNothing(s: Session, mode: Mode, held: nat, c: byte)
    requires |s.content.items| == |s.content.parents| && held <= Limit(mode)
    requires PieceOf(mode, Apart(s.machine, mode), held, c) == []
    ensures Next(s, mode, held, c).content == s.content
    ensures var m := Next(s, mode, held, c).machine;
            && m == s.machine.(state := BaseState(mode) + Held(mode, held, c), lastChar := m.lastChar)
            && m.lastChar == if mode == Data || IsMark(mode, c) then s.machine.lastChar else c
  {
  }

  lemma PlainPiece(mode: Mode, gap: bool, held: nat, c: byte)
    requires held <= Limit(mode) && !IsMark(mode, c) && !Separates(mode, c)
    ensures PieceOf(mode, gap, held, c)
            == [Piece(gap, held + if mode == Data then 1 else 2,
                      if held == 0 then [c] else if held == 1 then [Mark(mode), c] else [Mark(mode), Mark(mode), c])]
  {
    OneMark(mode);
    assert [] + [c] == [c] && [Mark(mode)] + [c] == [Mark(mode), c];
    assert [Mark(mode), Mark(mode)] + [c] == [Mark(mode), Mark(mode), c];
  }

  lemma WhitePiece(mode: Mode, gap: bool, held: nat, c: byte)
    requires held <= Limit(mode) && !IsMark(mode, c) && Separates(mode, c)
    ensures PieceOf(mode, gap, held, c)
            == if held == 0 then []
               else [Piece(gap, held + 2, if held == 1 then [Mark(mode)] else [Mark(mode), Mark(mode)])]
  {
    OneMark(mode);
  }

  lemma CharactersByte(s: Session, c: byte)
    requires |s.content.items| == |s.content.parents| && Reads(s.machine, Characters, 0) && c != LT
    ensures Advance(s, c) == Going(Next(s, Characters, 0, c))
  {
    hide Added, Layout, PieceOf, AddedAll, Next;
    WhiteIs(c);
    var gap := Apart(s.machine, Characters);
    if IsWhite(c) {
      WhitePiece(Characters, gap, 0, c);
      NextNothing(s, Characters, 0, c);
    } else {
      PlainPiece(Characters, gap, 0, c);
      NextPiece(s, Characters, 0, c, Piece(gap, 2, [c]));
      assert StepData(s.machine, c) == WithLast(Collect(s.machine, 2, [c], t => OnCharacterData(t)), c, 30);
    }
  }

  lemma DoctypesByte(s: Session, c: byte)
    requires |s.content.items| == |s.content.parents| && Reads(s.machine, Doctypes, 0) && Continues(Doctypes, 0, c)
    ensures Advance(s, c) == Going(Next(s, Doctypes, 0, c))
  {
    hide Added, Layout, PieceOf, AddedAll, Next, IsChar;
    WhiteIs(c);
    var gap := Apart(s.machine, Doctypes);
    if IsWhite(c) {
      WhitePiece(Doctypes, gap, 0, c);
      NextNothing(s, Doctypes, 0, c);
    } else {
      PlainPiece(Doctypes, gap, 0, c);
      NextPiece(s, Doctypes, 0, c, Piece(gap, 2, [c]));
      assert StepProlog(s.machine, c) == WithLast(Collect(s.machine, 2, [c], t => OnDoctype(t)), c, 15);
    }
  }

  lemma RemarksMark(s: Session, held: nat)
    requires |s.content.items| == |s.content.parents| && Reads(s.machine, Remarks, held)
    ensures Advance(s, MINUS) == Going(Next(s, Remarks, held, MINUS))
  {
    hide Added, Layout, PieceOf, AddedAll, Next, IsChar;
    MarkPiece(Remarks, Apart(s.machine, Remarks), held);
    if held < 2 {
      NextNothing(s, Remarks, held, MINUS);
    } else {
      NextPiece(s, Remarks, held, MINUS, Piece(Apart(s.machine, Remarks), 2, [MINUS]));
    }
  }

  lemma RemarksWhite(s: Session, held: nat, c: byte)
    requires |s.content.items| == |s.content.parents| && Reads(s.machine, Remarks, held) && IsWhite(c)
    ensures Advance(s, c) == Going(Next(s, Remarks, held, c))
  {
    hide Added, Layout, PieceOf, AddedAll, Next, IsChar;
    WhiteIs(c);
    WhitePiece(Remarks, Apart(s.machine, Remarks), held, c);
    if held == 0 {
      NextNothing(s, Remarks, held, c);
    } else {
      NextPiece(s, Remarks, held, c,
                Piece(Apart(s.machine, Remarks), held + 2, if held == 1 then [MINUS] else [MINUS, MINUS]));
    }
  }

  lemma RemarksPlain(s: Session, held: nat, c: byte)
    requires |s.content.items| == |s.content.parents| && Reads(s.machine, Remarks, held)
    requires Continues(Remarks, held, c) && c != MINUS && !IsWhite(c)
    ensures Advance(s, c) == Going(Next(s, Remarks, held, c))
  {
    hide Added, Layout, PieceOf, AddedAll, Next, IsChar, IsWhite, IsSpace;
    WhiteIs(c);
    PlainPiece(Remarks, Apart(s.machine, Remarks), held, c);
    if held == 0 {
      NextPiece(s, Remarks, 0, c, Piece(Apart(s.machine, Remarks), 2, [c]));
    } else if held == 1 {
      NextPiece(s, Remarks, 1, c, Piece(Apart(s.machine, Remarks), 3, [MINUS, c]));
    } else {
      NextPiece(s, Remarks, 2, c, Piece(Apart(s.machine, Remarks), 4, [MINUS, MINUS, c]));
    }
  }

  lemma RemarksByte(s: Session, held: nat, c: byte)
    requires |s.content.items| == |s.content.parents| && Reads(s.machine, Remarks, held) && Continues(Remarks, held, c)
    ensures Advance(s, c) == Going(Next(s, Remarks, held, c))
  {
    hide Added, Layout, PieceOf, AddedAll, Next, IsChar;
    WhiteIs(c);
    if c == MINUS {
      RemarksMark(s, held);
    } else if IsWhite(c) {
      RemarksWhite(s, held, c);
    } else {
      RemarksPlain(s, held, c);
    }
  }

  lemma MarkPiece(mode: Mode, gap: bool, held: nat)
    requires held <= Limit(mode) && Limit(mode) > 0
    ensures PieceOf(mode, gap, held, Mark(mode))
            == if held < Limit(mode) then [] else [Piece(gap, if mode == Data then 1 else 2, [Mark(mode)])]
  {
  }

  lemma InstructionsByte(s: Session, held: nat, c: byte)
    requires |s.content.items| == |s.content.parents| && Reads(s.machine, Instructions, held)
    requires Continues(Instructions, held, c)
    ensures Advance(s, c) == Going(Next(s, Instructions, held, c))
  {
    hide Added, Layout, PieceOf, AddedAll, Next, IsChar;
    WhiteIs(c);
    var m, gap := s.machine, Apart(s.machine, Instructions);
    if c == QUESTION {
      MarkPiece(Instructions, gap, held);
      if held < 1 {
        NextNothing(s, Instructions, held, c);
      } else {
        NextPiece(s, Instructions, held, c, Piece(gap, 2, [c]));
      }
    } else if IsWhite(c) {
      WhitePiece(Instructions, gap, held, c);
      if held == 0 {
        NextNothing(s, Instructions, held, c);
      } else {
        NextPiece(s, Instructions, held, c, Piece(gap, 3, [QUESTION]));
      }
    } else {
      PlainPiece(Instructions, gap, held, c);
      NextPiece(s, Instructions, held, c, Piece(gap, held + 2, if held == 0 then [c] else [QUESTION, c]));
    }
  }

  lemma DataByte(s: Session, held: nat, c: byte)
    requires |s.content.items| == |s.content.parents| && Reads(s.machine, Data, held) && Continues(Data, held, c)
    ensures Advance(s, c) == Going(Next(s, Data, held, c))
  {
    hide Added, Layout, PieceOf, AddedAll, Next, IsChar;
    var m := s.machine;
    if c == RBRACKET {
      MarkPiece(Data, false, held);
      if held < 2 {
        NextNothing(s, Data, held, c);
      } else {
        NextPiece(s, Data, held, c, Piece(false, 1, [c]));
      }
    } else {
      PlainPiece(Data, false, held, c);
      NextPiece(s, Data, held, c, Piece(false, held + 1,
                if held == 0 then [c] else if held == 1 then [RBRACKET, c] else [RBRACKET, RBRACKET, c]));
    }
  }

  /** A byte of a text goes where `Next` says. */
  lemma ByteRead(s: Session, mode: Mode, held: nat, c: byte)
    requires |s.content.items| == |s.content.parents| && Reads(s.machine, mode, held) && Continues(mode, held, c)
    ensures Leads(s, [c], Next(s, mode, held, c)) && Reads(Next(s, mode, held, c).machine, mode, Held(mode, held, c))
    ensures Apart(Next(s, mode, held, c).machine, mode) == Gap(mode, Apart(s.machine, mode), held, c)
  {
    hide Layout, PieceOf, AddedAll, Advance;
    WhiteIs(c);
    match mode {
      case Characters => CharactersByte(s, c);
      case Remarks => RemarksByte(s, held, c);
      case Instructions => InstructionsByte(s, held, c);
      case Doctypes => DoctypesByte(s, c);
      case Data => DataByte(s, held, c);
    }
    LeadsByte(s, c, Next(s, mode, held, c));
  }

  lemma {:induction false} LayoutJoins(text: bytes, a: seq<Piece>, b: seq<Piece>)
    ensures var blocks := Layout(text, a);
            Layout(text, a + b) == blocks[..|blocks| - 1] + Layout(blocks[|blocks| - 1], b)
    decreases |a|
  {
    if a == [] {
      assert a + b == b;
    } else {
      assert (a + b)[1..] == a[1..] + b;
      LayoutJoins(if |text| + a[0].need > TEXT_SIZE then a[0].data else Put(text, a[0]), a[1..], b);
    }
  }

  function HeldAfter(mode: Mode, held: nat, x: bytes): (n: nat)
    ensures held <= Limit(mode) ==> n <= Limit(mode)
    decreases |x|
  {
    if x == [] then held else HeldAfter(mode, Held(mode, held, x[0]), x[1..])
  }

  /** Whether there is white space before what comes behind a text. */
  function GapAfter(mode: Mode, gap: bool, held: nat, x: bytes): bool
    decreases |x|
  {
    if x == [] then gap else GapAfter(mode, Gap(mode, gap, held, x[0]), Held(mode, held, x[0]), x[1..])
  }

  /** The buffers that a text fills, and what they make of the document. */
  ghost predicate HasRead(s: Session, mode: Mode, held: nat, x: bytes, t: Session)
    requires |s.content.items| == |s.content.parents| && held <= Limit(mode)
  {
    var blocks := Layout(s.machine.text, Pieces(mode, Apart(s.machine, mode), held, x));
    var n := |blocks| - 1;
    && t.machine == s.machine.(state := BaseState(mode) + HeldAfter(mode, held, x), text := blocks[n],
                               lastChar := t.machine.lastChar)
    && t.content == AddedAll(s.content, KindOf(mode), blocks[..n])
    && Apart(t.machine, mode) == GapAfter(mode, Apart(s.machine, mode), held, x)
  }

  /** A text of any kind and length. */
  lemma {:induction false} TextRun(s: Session, mode: Mode, held: nat, x: bytes) returns (t: Session)
    requires |s.content.items| == |s.content.parents| && Reads(s.machine, mode, held) && AllContinue(mode, held, x)
    ensures Leads(s, x, t) && HasRead(s, mode, held, x, t)
    decreases |x|
  {
    hide Leads, Continues;
    if x == [] {
      LeadsNowhere(s);
      t := s;
      NothingRead(s, mode, held);
    } else {
      var u := Next(s, mode, held, x[0]);
      ByteRead(s, mode, held, x[0]);
      t := TextRun(u, mode, Held(mode, held, x[0]), x[1..]);
      LeadsOn(s, [x[0]], u, x[1..], t);
      assert x == [x[0]] + x[1..];
      ReadMore(s, mode, held, x, t);
    }
  }

  lemma NothingRead(s: Session, mode: Mode, held: nat)
    requires |s.content.items| == |s.content.parents| && Reads(s.machine, mode, held)
    ensures HasRead(s, mode, held, [], s)
  {
  }

  lemma ReadMore(s: Session, mode: Mode, held: nat, x: bytes, t: Session)
    requires |s.content.items| == |s.content.parents| && Reads(s.machine, mode, held) && x != []
    requires var u := Next(s, mode, held, x[0]);
             && Apart(u.machine, mode) == Gap(mode, Apart(s.machine, mode), held, x[0])
             && HasRead(u, mode, Held(mode, held, x[0]), x[1..], t)
    ensures HasRead(s, mode, held, x, t)
  {
    hide Layout, PieceOf, Pieces, AddedAll, Apart, Gap, Held, BaseState;
    var gap, u := Apart(s.machine, mode), Next(s, mode, held, x[0]);
    var p, rest := PieceOf(mode, gap, held, x[0]), Pieces(mode, Gap(mode, gap, held, x[0]), Held(mode, held, x[0]), x[1..]);
    PiecesFirst(mode, gap, held, x[0], x[1..]);
    assert [x[0]] + x[1..] == x;
    var a, b := Layout(s.machine.text, p), Layout(u.machine.text, rest);
    LayoutJoins(s.machine.text, p, rest);
    AddedAllJoins(s.content, KindOf(mode), a[..|a| - 1], b[..|b| - 1]);
    assert (a[..|a| - 1] + b)[..|a| - 1 + |b| - 1] == a[..|a| - 1] + b[..|b| - 1];
  }

  /** In character data and comments, what is handed over and what is still in the buffer is one text. */
  lemma ReadAsOne(s: Session, mode: Mode, held: nat, x: bytes, t: Session)
    requires |s.content.items| == |s.content.parents| && held <= Limit(mode) && HasRead(s, mode, held, x, t)
    requires KindOf(mode).Text? || KindOf(mode).Comment?
    ensures var text := s.machine.text;
            |t.content.items| == |t.content.parents|
            && Pending(t.content, KindOf(mode), t.machine.text)
               == Pending(s.content, KindOf(mode), text + Laid(|text|, Pieces(mode, Apart(s.machine, mode), held, x)))
  {
    var ps := Pieces(mode, Apart(s.machine, mode), held, x);
    var blocks, kind := Layout(s.machine.text, ps), KindOf(mode);
    var n := |blocks| - 1;
    hide Layout, Pieces, Laid, Pending, AddedAll;
    AddedAllFlat(s.content, kind, blocks[..n]);
    PendingTwice(s.content, kind, Flatten(blocks[..n]), blocks[n]);
    FlattenUpTo(blocks, n);
    assert blocks[..n + 1] == blocks;
    LayoutIsLaid(s.machine.text, ps);
  }

  lemma {:induction false} ContinueJoins(mode: Mode, held: nat, a: bytes, b: bytes)
    ensures AllContinue(mode, held, a + b) <==> AllContinue(mode, held, a) && AllContinue(mode, HeldAfter(mode, held, a), b)
    ensures HeldAfter(mode, held, a + b) == HeldAfter(mode, HeldAfter(mode, held, a), b)
    decreases |a|
  {
    if a == [] {
      assert a + b == b;
    } else {
      assert (a + b)[1..] == a[1..] + b;
      ContinueJoins(mode, Held(mode, held, a[0]), a[1..], b);
    }
  }

  lemma {:induction false} MarksContinue(mode: Mode, held: nat, n: nat)
    requires held <= Limit(mode) && (Limit(mode) == 0 ==> n == 0)
    ensures AllContinue(mode, held, Marks(mode, n))
    ensures HeldAfter(mode, held, Marks(mode, n)) == if held + n <= Limit(mode) then held + n else Limit(mode)
    decreases n
  {
    if n > 0 {
      assert Marks(mode, n)[1..] == Marks(mode, n - 1);
      MarksContinue(mode, Held(mode, held, Mark(mode)), n - 1);
    }
  }

  /** A text with all of the marks that close it, up to the byte behind them. */
  lemma ToItsEnd(s: Session, mode: Mode, x: bytes) returns (t: Session)
    requires |s.content.items| == |s.content.parents| && Reads(s.machine, mode, 0) && AllContinue(mode, 0, x)
    ensures Leads(s, x + Marks(mode, Limit(mode)), t) && Reads(t.machine, mode, Limit(mode))
    ensures HasRead(s, mode, 0, x + Marks(mode, Limit(mode)), t)
    ensures t.machine == s.machine.(state := t.machine.state, text := t.machine.text, lastChar := t.machine.lastChar)
    ensures |t.content.items| == |t.content.parents|
  {
    var end := Marks(mode, Limit(mode));
    ContinueJoins(mode, 0, x, end);
    MarksContinue(mode, HeldAfter(mode, 0, x), Limit(mode));
    t := TextRun(s, mode, 0, x + end);
  }

  /** A `<` hands the text over. */
  lemma OpenAngle(s: Session) returns (t: Session)
    requires |s.content.items| == |s.content.parents| && s.machine.state == 30
    ensures Leads(s, [LT], t)
    ensures t.machine == s.machine.(state := 31) && t.content == Pending(s.content, Text, s.machine.text)
  {
    t := Session(s.machine.(state := 31), Pending(s.content, Text, s.machine.text));
    LeadsByte(s, LT, t);
  }

  lemma DataEnds(s: Session) returns (t: Session)
    requires |s.content.items| == |s.content.parents| && s.machine.state == 41
    ensures Leads(s, [GT], t) && t == Session(s.machine.(state := 30, lastChar := 0), s.content)
  {
    t := Session(s.machine.(state := 30, lastChar := 0), s.content);
    LeadsByte(s, GT, t);
  }

  /** Character data behind whatever is in the buffer. */
  lemma CharacterRun(s: Session, x: bytes) returns (t: Session)
    requires |s.content.items| == |s.content.parents| && s.machine.state == 30 && LT !in x
    ensures Leads(s, x, t) && t.machine == s.machine.(text := t.machine.text, lastChar := t.machine.lastChar)
    ensures |t.content.items| == |t.content.parents|
    ensures var n, gap := |s.machine.text|, IsWhite(s.machine.lastChar);
            var ps := Pieces(Characters, gap, 0, x);
            && Pending(t.content, Text, t.machine.text) == Pending(Pending(s.content, Text, s.machine.text), Text, Laid(n, ps))
            && |t.machine.text| == FillAll(n, ps) && IsWhite(t.machine.lastChar) == GapAfter(Characters, gap, 0, x)
  {
    hide Pending, Laid, Pieces, Leads, Advance, AddedAll, Layout, FillAll, GapAfter;
    NoAngle(x);
    t := ToItsEnd(s, Characters, x);
    assert x + Marks(Characters, 0) == x;
    ReadAsOne(s, Characters, 0, x, t);
    var ps := Pieces(Characters, Apart(s.machine, Characters), 0, x);
    PendingTwice(s.content, Text, s.machine.text, Laid(|s.machine.text|, ps));
    LayoutFill(s.machine.text, ps);
  }

  lemma CharacterBytes(s: Session, x: bytes) returns (t: Session)
    requires |s.content.items| == |s.content.parents| && s.machine.state == 30 && s.machine.text == []
    requires !IsWhite(s.machine.lastChar) && LT !in x
    ensures Leads(s, x, t) && Pending(t.content, Text, t.machine.text) == Pending(s.content, Text, Kept(Characters, x))
    ensures t.machine == s.machine.(text := t.machine.text, lastChar := t.machine.lastChar)
    ensures |t.content.items| == |t.content.parents|
  {
    hide Laid, Pieces, Leads, FillAll, GapAfter;
    t := CharacterRun(s, x);
    assert x + Marks(Characters, 0) == x;
  }

  /**
   * Character data from behind a tag up to the next `<`: one text, if there is anything in it, with the words that were
   * written and single spaces between them, if and only if there is always room for the space.
   */
  lemma CharactersRead(s: Session, x: bytes) returns (t: Session)
    requires |s.content.items| == |s.content.parents| && s.machine.state == 30 && s.machine.text == []
    requires !IsWhite(s.machine.lastChar) && LT !in x
    ensures Leads(s, x + [LT], t) && t.content == Pending(s.content, Text, Kept(Characters, x))
    ensures Kept(Characters, x) == Spaced(WordsOf(x)) <==> Complete(Characters, x)
    ensures t.machine == s.machine.(state := 31, text := t.machine.text, lastChar := t.machine.lastChar)
  {
    hide Leads, Pending, Kept, Complete;
    KeptWords(Characters, x);
    var u := CharacterBytes(s, x);
    t := OpenAngle(u);
    LeadsOn(s, x, u, [LT], t);
  }

  lemma {:induction false} NoAngle(x: bytes)
    requires LT !in x
    ensures AllContinue(Characters, 0, x)
  {
    if x != [] {
      NoAngle(x[1..]);
    }
  }

  /** Outside of markup again, perhaps with the text of the last item left in the buffer. */
  predicate Resumed(m: Machine, n: Machine) {
    && n == Resume(m).(text := n.text, lastChar := n.lastChar)
    && (m.hasRoot && m.depth > 0 ==> n.text == [] && n.lastChar == 0)
  }

  lemma RemarkEnds(s: Session) returns (t: Session)
    requires |s.content.items| == |s.content.parents| && s.machine.state == 6
    ensures Leads(s, [GT], t) && Resumed(s.machine, t.machine)
    ensures t.content == Pending(s.content, Comment, s.machine.text)
  {
    hide Added;
    t := Session(Resume(s.machine), Pending(s.content, Comment, s.machine.text));
    LeadsByte(s, GT, t);
  }

  lemma InstructionEnds(s: Session) returns (t: Session)
    requires |s.content.items| == |s.content.parents| && s.machine.state == 20
    ensures Leads(s, [GT], t) && Resumed(s.machine, t.machine)
    ensures t.content == Pending(s.content, ProcessingInstruction, s.machine.text)
  {
    hide Added;
    t := Session(Resume(s.machine), Pending(s.content, ProcessingInstruction, s.machine.text));
    LeadsByte(s, GT, t);
  }

  lemma DoctypeEnds(s: Session) returns (t: Session)
    requires |s.content.items| == |s.content.parents| && s.machine.state == 15 && s.machine.text != []
    ensures Leads(s, [GT], t) && t.machine == s.machine.(state := 0)
    ensures t.content == Pending(s.content, Doctype, s.machine.text)
  {
    hide Added;
    t := Session(s.machine.(state := 0), Pending(s.content, Doctype, s.machine.text));
    LeadsByte(s, GT, t);
  }

  /** The buffer is never empty again. */
  lemma {:induction false} NeverEmpty(text: bytes, ps: seq<Piece>)
    requires text != [] && ArePieces(ps)
    ensures var blocks := Layout(text, ps); blocks[|blocks| - 1] != []
    decreases |ps|
  {
    if ps != [] {
      assert IsPiece(ps[0]);
      NeverEmpty(if |text| + ps[0].need > TEXT_SIZE then ps[0].data else Put(text, ps[0]), ps[1..]);
    }
  }

  lemma DoctypeBegins(s: Session, c: byte) returns (t: Session)
    requires |s.content.items| == |s.content.parents| && s.machine.state == 14 && IsNameStart(c)
    ensures Leads(s, [c], t) && t == Session(s.machine.(state := 15, text := [c], lastChar := c), s.content)
  {
    hide IsNameStart;
    t := Session(s.machine.(state := 15, text := [c], lastChar := c), s.content);
    LeadsByte(s, c, t);
  }

  lemma RemarkBytes(s: Session, x: bytes) returns (t: Session)
    requires |s.content.items| == |s.content.parents| && s.machine.state == 4 && s.machine.text == []
    requires !IsWhite(s.machine.lastChar) && AllContinue(Remarks, 0, x)
    ensures Leads(s, x + [MINUS, MINUS, GT], t) && t.content == Pending(s.content, Comment, Kept(Remarks, x))
    ensures Resumed(s.machine, t.machine)
  {
    hide HasRead, Pending, Laid, Pieces, Leads, Advance;
    var u := ToItsEnd(s, Remarks, x);
    OneMark(Remarks);
    ReadAsOne(s, Remarks, 0, x + Marks(Remarks, 2), u);
    assert [] + Kept(Remarks, x) == Kept(Remarks, x);
    t := RemarkEnds(u);
    LeadsOn(s, x + [MINUS, MINUS], u, [GT], t);
    assert x + [MINUS, MINUS] + [GT] == x + [MINUS, MINUS, GT];
  }

  /**
   * A comment, from behind its opening hyphens up to the next `-->`: one item, if there is anything in it, with the words
   * that were written and single spaces between them, if and only if there is always room for the space.
   */
  lemma RemarkRead(s: Session, x: bytes) returns (t: Session)
    requires |s.content.items| == |s.content.parents| && s.machine.state == 4 && s.machine.text == []
    requires !IsWhite(s.machine.lastChar) && AllChars(x) && !Occurs(Ascii("-->"), x)
    ensures Leads(s, x + [MINUS, MINUS, GT], t) && t.content == Pending(s.content, Comment, Kept(Remarks, x))
    ensures Kept(Remarks, x) == Spaced(WordsOf(x)) <==> Complete(Remarks, x)
    ensures Resumed(s.machine, t.machine)
  {
    hide Leads, Pending, Kept, Complete, Occurs, Resumed;
    KeptWords(Remarks, x);
    UntilEnding(Remarks, x, Ascii("-->"));
    t := RemarkBytes(s, x);
  }

  /**
   * A processing instruction, from behind its question mark: an item for each buffer that it fills, so that a long one
   * becomes several.
   */
  lemma InstructionRead(s: Session, x: bytes) returns (t: Session)
    requires |s.content.items| == |s.content.parents| && s.machine.state == 19 && s.machine.text == []
    requires !IsWhite(s.machine.lastChar) && AllChars(x) && !Occurs(Ascii("?>"), x)
    ensures Leads(s, x + [QUESTION, GT], t) && Resumed(s.machine, t.machine)
    ensures t.content == AddedAll(s.content, ProcessingInstruction, Layout([], PiecesOf(Instructions, x)))
  {
    UntilEnding(Instructions, x, Ascii("?>"));
    hide Pending, Layout, Pieces, Leads, Advance, AddedAll;
    var u := ToItsEnd(s, Instructions, x);
    OneMark(Instructions);
    t := InstructionEnds(u);
    LeadsOn(s, x + [QUESTION], u, [GT], t);
    assert x + [QUESTION] + [GT] == x + [QUESTION, GT];
    LastBlock(s.content, ProcessingInstruction, Layout([], PiecesOf(Instructions, x)));
  }

  /** An instruction that fits into one buffer is one item with its words. */
  lemma ShortInstruction(c: Content, mode: Mode, x: bytes)
    requires |c.items| == |c.parents| && mode != Data && |Spaced(WordsOf(x))| + 2 <= TEXT_SIZE
    ensures AddedAll(c, KindOf(mode), Layout([], PiecesOf(mode, x))) == Pending(c, KindOf(mode), Spaced(WordsOf(x)))
  {
    var blocks := Layout([], PiecesOf(mode, x));
    hide Pending, Layout, PiecesOf, AddedAll;
    ShortKept(mode, x);
    KeptWords(mode, x);
    LayoutIsLaid([], PiecesOf(mode, x));
    FlattenOne(blocks[0]);
    assert blocks == [blocks[0]];
    AddedOne(c, KindOf(mode), blocks[0]);
    assert [] + Kept(mode, x) == Kept(mode, x);
  }

  lemma LastBlock(c: Content, kind: Kind, blocks: seq<bytes>)
    requires |c.items| == |c.parents| && blocks != []
    ensures var n := |blocks| - 1;
            AddedAll(c, kind, blocks) == Pending(AddedAll(c, kind, blocks[..n]), kind, blocks[n])
  {
    hide AddedAll, Pending;
    var n := |blocks| - 1;
    assert blocks == blocks[..n] + [blocks[n]];
    AddedAllJoins(c, kind, blocks[..n], [blocks[n]]);
    AddedOne(AddedAll(c, kind, blocks[..n]), kind, blocks[n]);
  }

  /** A document type, from its first letter on: an item for each buffer. */
  lemma DoctypeRead(s: Session, x: bytes) returns (t: Session)
    requires |s.content.items| == |s.content.parents| && s.machine.state == 14
    requires x != [] && IsNameStart(x[0]) && AllChars(x) && GT !in x
    ensures Leads(s, x + [GT], t) && t.content == AddedAll(s.content, Doctype, Layout([], PiecesOf(Doctypes, x)))
    ensures t.machine == s.machine.(state := 0, text := t.machine.text, lastChar := t.machine.lastChar)
  {
    NameStartIs(x[0]);
    NoEnding(x[1..]);
    hide Pending, Layout, Pieces, Leads, Advance, AddedAll, IsNameStart, IsSpace, IsWhite;
    var a := DoctypeBegins(s, x[0]);
    var u := ToItsEnd(a, Doctypes, x[1..]);
    OneMark(Doctypes);
    assert x[1..] + [] == x[1..] && x + [] == x && [x[0]] + x[1..] == x;
    FirstLetter(x);
    NeverEmpty([x[0]], Pieces(Doctypes, false, 0, x[1..]));
    t := DoctypeEnds(u);
    LeadsOn(s, [x[0]], a, x[1..], u);
    LeadsOn(s, x, u, [GT], t);
    LastBlock(s.content, Doctype, Layout([], PiecesOf(Doctypes, x)));
  }

  lemma NameStartIs(c: byte)
    requires IsNameStart(c)
    ensures !IsWhite(c) && !IsSpace(c) && c != GT && IsChar(c)
  {
  }

  lemma FirstLetter(x: bytes)
    requires x != [] && !IsSpace(x[0])
    ensures Layout([], PiecesOf(Doctypes, x)) == Layout([x[0]], Pieces(Doctypes, false, 0, x[1..]))
  {
    OneMark(Doctypes);
    assert x + [] == x && [x[0]] + x[1..] == x;
    PiecesFirst(Doctypes, false, 0, x[0], x[1..]);
    PlainPiece(Doctypes, false, 0, x[0]);
    var p := Piece(false, 2, [x[0]]);
    assert ([p] + Pieces(Doctypes, false, 0, x[1..]))[1..] == Pieces(Doctypes, false, 0, x[1..]);
  }

  /** A CDATA section, from behind its opening bracket: its bytes arrive as they are, behind what is in the buffer. */
  lemma DataRead(s: Session, x: bytes) returns (t: Session)
    requires |s.content.items| == |s.content.parents| && s.machine.state == 39 && AllContinue(Data, 0, x)
    ensures Leads(s, x + [RBRACKET, RBRACKET, GT], t)
    ensures t.machine == s.machine.(state := 30, text := t.machine.text, lastChar := 0)
    ensures Pending(t.content, Text, t.machine.text) == Pending(s.content, Text, s.machine.text + x)
    ensures |t.machine.text| == FillAll(|s.machine.text|, PiecesOf(Data, x))
  {
    hide Pending, Laid, Pieces, Leads, Advance, AddedAll, Layout, FillAll;
    var u := ToItsEnd(s, Data, x);
    OneMark(Data);
    ReadAsOne(s, Data, 0, x + Marks(Data, 2), u);
    LayoutFill(s.machine.text, PiecesOf(Data, x));
    hide HasRead;
    SolidKept(Data, |s.machine.text|, x);
    t := DataEnds(u);
    LeadsOn(s, x + [RBRACKET, RBRACKET], u, [GT], t);
    assert x + [RBRACKET, RBRACKET] + [GT] == x + [RBRACKET, RBRACKET, GT];
  }

  lemma OneMore(s: Session, read: bytes, t: Session, b: byte, u: Session)
    requires Leads(s, read, t) && Advance(t, b) == Going(u)
    ensures Leads(s, read + [b], u)
  {
    LeadsByte(t, b, u);
    hide Advance;
    LeadsOn(s, read, t, [b], u);
  }

  function InState(s: Session, state: nat): (t: Session)
    ensures t.content == s.content
  {
    Session(s.machine.(state := state), s.content)
  }

  /** The first letters of a word of capitals, in any case. */
  predicate Spells(letters: bytes, word: string) {
    |letters| <= |word|
    && forall i :: 0 <= i < |letters| ==> letters[i] as char == word[i] || letters[i] == word[i] as int + 32
  }

  /** The letters of a keyword, in any case, each of which leads to the next state. */
  lemma {:induction false} KeywordRead(s: Session, word: string, letters: bytes, first: nat)
    requires |s.content.items| == |s.content.parents|
    requires (word == "CDATA" && first == 33) || (word == "OCTYPE" && first == 7)
    requires s.machine.state == first
    requires Spells(letters, word)
    ensures Leads(s, letters, InState(s, first + |letters|))
    decreases |letters|
  {
    var n := |letters| - 1;
    if n < 0 {
      LeadsNowhere(s);
    } else {
      KeywordRead(s, word, letters[..n], first);
      KeywordLetter(InState(s, first + n), word, letters[n], n, first);
      hide Leads, Advance;
      OneMore(s, letters[..n], InState(s, first + n), letters[n], InState(s, first + n + 1));
      assert letters[..n] + [letters[n]] == letters;
    }
  }

  lemma KeywordLetter(s: Session, word: string, c: byte, i: nat, first: nat)
    requires |s.content.items| == |s.content.parents|
    requires (word == "CDATA" && first == 33) || (word == "OCTYPE" && first == 7)
    requires i < |word| && s.machine.state == first + i && (c as char == word[i] || c == word[i] as int + 32)
    ensures Advance(s, c) == Going(InState(s, first + i + 1))
  {
  }

  /** Behind a `<`: the opening of a CDATA section, which begins with a space if white space came before it. */
  lemma SectionOpens(s: Session, letters: bytes) returns (t: Session)
    requires |s.content.items| == |s.content.parents| && s.machine.state == 31 && |letters| == 5
    requires Spells(letters, "CDATA")
    ensures Leads(s, [BANG, LBRACKET] + letters + [LBRACKET], t) && t.content == s.content
    ensures t.machine == s.machine.(state := 39,
                                    text := if IsWhite(s.machine.lastChar) && s.machine.text != [] then [SPACE] else [])
  {
    hide IsWhite;
    var text := if IsWhite(s.machine.lastChar) && s.machine.text != [] then [SPACE] else [];
    t := Session(s.machine.(state := 39, text := text), s.content);
    LeadsByte(s, BANG, InState(s, 32));
    OneMore(s, [BANG], InState(s, 32), LBRACKET, InState(s, 33));
    KeywordRead(InState(s, 33), "CDATA", letters, 33);
    assert Advance(InState(s, 38), LBRACKET) == Going(t);
    hide Leads, Advance;
    assert [BANG] + [LBRACKET] == [BANG, LBRACKET];
    LeadsOn(s, [BANG, LBRACKET], InState(s, 33), letters, InState(s, 38));
    OneMore(s, [BANG, LBRACKET] + letters, InState(s, 38), LBRACKET, t);
  }

  /**
   * A whole CDATA section behind a `<`: its bytes as they are, and white space between the text before and the section
   * is one space.
   */
  lemma SectionRead(s: Session, letters: bytes, x: bytes) returns (t: Session)
    requires |s.content.items| == |s.content.parents| && s.machine.state == 31 && |letters| == 5
    requires Spells(letters, "CDATA")
    requires AllChars(x) && !Occurs(Ascii("]]>"), x)
    ensures Leads(s, [BANG, LBRACKET] + letters + [LBRACKET] + (x + [RBRACKET, RBRACKET, GT]), t)
    ensures t.machine == s.machine.(state := 30, text := t.machine.text, lastChar := 0)
    ensures Pending(t.content, Text, t.machine.text)
            == Pending(s.content, Text, (if IsWhite(s.machine.lastChar) && s.machine.text != [] then [SPACE] else []) + x)
    ensures |t.machine.text|
            == FillAll(if IsWhite(s.machine.lastChar) && s.machine.text != [] then 1 else 0, PiecesOf(Data, x))
  {
    hide Leads, Pending, IsWhite, Occurs, FillAll;
    UntilEnding(Data, x, Ascii("]]>"));
    var u := SectionOpens(s, letters);
    t := DataRead(u, x);
    LeadsOn(s, [BANG, LBRACKET] + letters + [LBRACKET], u, x + [RBRACKET, RBRACKET, GT], t);
  }

  predicate Occurs(part: bytes, x: bytes)
    decreases |x|
  {
    part <= x || (x != [] && Occurs(part, x[1..]))
  }

  predicate AllChars(x: bytes) {
    forall i :: 0 <= i < |x| ==> IsChar(x[i])
  }

  /** What ends a text: `-->`, `?>`, `]]>` or `>`. */
  function Ending(mode: Mode): bytes {
    Marks(mode, Limit(mode)) + [GT]
  }

  lemma OccursFirst(part: bytes, c: byte, rest: bytes)
    ensures Occurs(part, [c] + rest) <==> part <= [c] + rest || Occurs(part, rest)
  {
    assert ([c] + rest)[1..] == rest;
  }

  /** Marks that are followed by anything else end a text only if there are enough of them before a `>`. */
  lemma {:induction false} EndingAhead(mode: Mode, held: nat, c: byte, rest: bytes)
    requires mode != Characters && held <= Limit(mode) && !IsMark(mode, c)
    ensures Occurs(Ending(mode), Marks(mode, held) + ([c] + rest))
            <==> (c == GT && held == Limit(mode)) || Occurs(Ending(mode), rest)
    decreases held
  {
    hide Occurs;
    var e, y := Ending(mode), [c] + rest;
    assert |e| == Limit(mode) + 1 && e[Limit(mode)] == GT && forall i :: 0 <= i < Limit(mode) ==> e[i] == Mark(mode);
    OneMark(mode);
    if held == 0 {
      assert Marks(mode, 0) + y == y;
      OccursFirst(e, c, rest);
      assert e <= y ==> e[0] == y[0];
      assert Limit(mode) == 0 && c == GT ==> y[..1] == e;
    } else {
      var x := Marks(mode, held) + y;
      assert x == [Mark(mode)] + (Marks(mode, held - 1) + y) && x[held] == c;
      OccursFirst(e, Mark(mode), Marks(mode, held - 1) + y);
      EndingAhead(mode, held - 1, c, rest);
      assert e <= x ==> e[held] == c;
      if held == Limit(mode) && c == GT {
        assert x[..held + 1] == e;
      }
    }
  }

  /** Of too many marks in a row the first can be left out. */
  lemma TooMany(mode: Mode, rest: bytes)
    requires Limit(mode) > 0
    ensures Occurs(Ending(mode), Marks(mode, Limit(mode)) + ([Mark(mode)] + rest))
            <==> Occurs(Ending(mode), Marks(mode, Limit(mode)) + rest)
  {
    hide Occurs;
    var n, m := Limit(mode), Mark(mode);
    MarksMove(mode, n, rest);
    var x := Marks(mode, n) + ([m] + rest);
    OccursFirst(Ending(mode), m, Marks(mode, n) + rest);
    assert x[n] == m && Ending(mode)[n] == GT;
  }

  /** A comment, a processing instruction, a document type or a CDATA section goes on until its ending occurs. */
  lemma {:induction false} ContinuesUntil(mode: Mode, held: nat, x: bytes)
    requires mode != Characters && held <= Limit(mode)
    ensures AllContinue(mode, held, x) <==> AllChars(x) && !Occurs(Ending(mode), Marks(mode, held) + x)
    decreases |x|
  {
    OneMark(mode);
    if x == [] {
      NotInMarks(mode, held);
      assert Marks(mode, held) + x == Marks(mode, held);
    } else {
      var c, rest := x[0], x[1..];
      assert x == [c] + rest;
      hide Occurs, IsChar;
      ContinuesUntil(mode, Held(mode, held, c), rest);
      if IsMark(mode, c) && held < Limit(mode) {
        assert Marks(mode, held) + ([c] + rest) == Marks(mode, held + 1) + rest;
      } else if IsMark(mode, c) {
        TooMany(mode, rest);
      } else {
        EndingAhead(mode, held, c, rest);
        assert Marks(mode, 0) + rest == rest;
      }
    }
  }

  lemma NotInMarks(mode: Mode, held: nat)
    requires held <= Limit(mode)
    ensures !Occurs(Ending(mode), Marks(mode, held))
    decreases held
  {
    assert |Ending(mode)| > held;
    if held > 0 {
      assert Marks(mode, held)[1..] == Marks(mode, held - 1);
      NotInMarks(mode, held - 1);
    }
  }

  lemma UntilEnding(mode: Mode, x: bytes, ending: bytes)
    requires AllChars(x) && !Occurs(ending, x)
    requires match mode
             case Remarks => ending == Ascii("-->")
             case Instructions => ending == Ascii("?>")
             case Data => ending == Ascii("]]>")
             case _ => false
    ensures AllContinue(mode, 0, x)
  {
    OneMark(mode);
    assert ending == Ending(mode);
    hide Occurs, AllChars;
    assert Marks(mode, 0) + x == x;
    ContinuesUntil(mode, 0, x);
  }

  lemma {:induction false} NoEnding(x: bytes)
    requires AllChars(x) && GT !in x
    ensures AllContinue(Doctypes, 0, x)
  {
    if x != [] {
      NoEnding(x[1..]);
    }
  }
}

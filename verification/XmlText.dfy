/** What becomes of the white space in an XML text: pieces of it go into a buffer that is handed over when it is full. */
module XmlText {
  import opened Bytes
  import opened Sequences
  import opened XmlMachine

  /** What is being read: character data, a comment, a processing instruction, a document type, or a CDATA section. */
  datatype Mode = Characters | Remarks | Instructions | Doctypes | Data

  /** A text may end with some marks, which are held back until it is known that it goes on. */
  function Limit(mode: Mode): nat {
    match mode
    case Remarks => 2
    case Data => 2
    case Instructions => 1
    case _ => 0
  }

  function Mark(mode: Mode): byte {
    match mode
    case Remarks => MINUS
    case Data => RBRACKET
    case _ => QUESTION
  }

  predicate IsMark(mode: Mode, c: byte) {
    Limit(mode) > 0 && c == Mark(mode)
  }

  predicate IsSpace(c: byte) {
    c as char == ' ' || c as char == '\t' || c as char == '\r' || c as char == '\n'
  }

  /** White space separates words, except in a CDATA section. */
  predicate Separates(mode: Mode, c: byte) {
    mode != Data && IsSpace(c)
  }

  /** Bytes that go into the buffer at once, how much room they ask for, and whether there is white space before them. */
  datatype Piece = Piece(gap: bool, need: nat, data: bytes)

  predicate IsPiece(p: Piece) {
    p.data != [] && |p.data| <= p.need <= |p.data| + 2 && p.need <= 4
  }

  /** How many marks are held back after a byte. */
  function Held(mode: Mode, held: nat, c: byte): (n: nat)
    ensures held <= Limit(mode) ==> n <= Limit(mode)
  {
    if !IsMark(mode, c) then 0 else if held < Limit(mode) then held + 1 else held
  }

  /** Whether there is white space before what is held back, or before what comes next. */
  function Gap(mode: Mode, gap: bool, held: nat, c: byte): bool {
    if IsMark(mode, c) && held < Limit(mode) then gap else Separates(mode, c)
  }

  /** What a byte puts into the buffer. */
  function PieceOf(mode: Mode, gap: bool, held: nat, c: byte): (ps: seq<Piece>)
    requires held <= Limit(mode)
    ensures |ps| <= 1 && forall p <- ps :: IsPiece(p)
  {
    var need := if mode == Data then 1 else 2;
    var marks := Repeat(Mark(mode), held);
    if IsMark(mode, c) then if held < Limit(mode) then [] else [Piece(gap, need, [c])]
    else if Separates(mode, c) then if held == 0 then [] else [Piece(gap, held + need, marks)]
    else [Piece(gap, held + need, marks + [c])]
  }

  predicate ArePieces(ps: seq<Piece>) {
    forall i :: 0 <= i < |ps| ==> IsPiece(ps[i])
  }

  function Pieces(mode: Mode, gap: bool, held: nat, x: bytes): (ps: seq<Piece>)
    requires held <= Limit(mode)
    ensures ArePieces(ps)
    decreases |x|
  {
    if x == [] then []
    else PieceOf(mode, gap, held, x[0]) + Pieces(mode, Gap(mode, gap, held, x[0]), Held(mode, held, x[0]), x[1..])
  }

  /** The buffers that are filled one after the other, the last of them perhaps not yet full. */
  function Layout(text: bytes, ps: seq<Piece>): (blocks: seq<bytes>)
    ensures blocks != []
    decreases |ps|
  {
    if ps == [] then [text]
    else if |text| + ps[0].need > TEXT_SIZE then [text] + Layout(ps[0].data, ps[1..])
    else Layout(Put(text, ps[0]), ps[1..])
  }

  /** A space is put between words, but not at the beginning of a buffer. */
  function Put(text: bytes, p: Piece): bytes {
    (if p.gap && text != [] then text + [SPACE] else text) + p.data
  }

  /** How full the buffer is after a piece. */
  function Fill(n: nat, p: Piece): nat {
    if n + p.need > TEXT_SIZE then |p.data| else n + |p.data| + if p.gap && n > 0 then 1 else 0
  }

  /** All that is put into buffers, beginning with one that holds `n` bytes. */
  function Laid(n: nat, ps: seq<Piece>): bytes
    decreases |ps|
  {
    if ps == [] then []
    else (if ps[0].gap && 0 < n && n + ps[0].need <= TEXT_SIZE then [SPACE] else []) + ps[0].data
         + Laid(Fill(n, ps[0]), ps[1..])
  }

  /** The same in an endless buffer. */
  function Joined(started: bool, ps: seq<Piece>): bytes
    decreases |ps|
  {
    if ps == [] then []
    else (if ps[0].gap && started then [SPACE] else []) + ps[0].data + Joined(true, ps[1..])
  }

  /** Wherever a space belongs, there is room for it with what follows. */
  predicate Roomy(n: nat, ps: seq<Piece>)
    decreases |ps|
  {
    ps == [] || ((ps[0].gap && n > 0 ==> n + ps[0].need <= TEXT_SIZE) && Roomy(Fill(n, ps[0]), ps[1..]))
  }

  lemma {:induction false} LayoutIsLaid(text: bytes, ps: seq<Piece>)
    ensures Flatten(Layout(text, ps)) == text + Laid(|text|, ps)
    decreases |ps|
  {
    FlattenOne(text);
    if ps != [] {
      var p, rest := ps[0], ps[1..];
      var next := if |text| + p.need > TEXT_SIZE then p.data else Put(text, p);
      var laid := Laid(|next|, rest);
      LayoutIsLaid(next, rest);
      FlattenJoins([text], Layout(next, rest));
      assert Laid(|text|, ps) == (if p.gap && text != [] && |text| + p.need <= TEXT_SIZE then [SPACE] else []) + p.data + laid;
      hide Flatten, Laid;
      if |text| + p.need > TEXT_SIZE {
        assert [] + p.data + laid == p.data + laid;
      } else {
        PutBefore(text, p, laid);
      }
    }
  }

  /** How full the last buffer is. */
  function FillAll(n: nat, ps: seq<Piece>): nat
    decreases |ps|
  {
    if ps == [] then n else FillAll(Fill(n, ps[0]), ps[1..])
  }

  lemma {:induction false} LayoutFill(text: bytes, ps: seq<Piece>)
    ensures var blocks := Layout(text, ps); |blocks[|blocks| - 1]| == FillAll(|text|, ps)
    decreases |ps|
  {
    if ps != [] {
      LayoutFill(if |text| + ps[0].need > TEXT_SIZE then ps[0].data else Put(text, ps[0]), ps[1..]);
    }
  }

  lemma PutBefore(text: bytes, p: Piece, rest: bytes)
    ensures Put(text, p) + rest == text + ((if p.gap && text != [] then [SPACE] else []) + p.data + rest)
  {
    if !(p.gap && text != []) {
      assert [] + p.data == p.data;
    }
  }

  lemma FlattenOne(text: bytes)
    ensures Flatten([text]) == text && text + [] == text
  {
    assert Flatten([text]) == text + Flatten([]);
  }

  /** A space is lost if and only if it belongs where the buffer has no room for it with what follows. */
  lemma {:induction false} LaidIff(n: nat, ps: seq<Piece>)
    requires ArePieces(ps)
    ensures |Laid(n, ps)| <= |Joined(n > 0, ps)|
    ensures Laid(n, ps) == Joined(n > 0, ps) <==> Roomy(n, ps)
    ensures !Roomy(n, ps) ==> |Laid(n, ps)| < |Joined(n > 0, ps)|
    decreases |ps|
  {
    if ps != [] {
      assert IsPiece(ps[0]);
      LaidIff(Fill(n, ps[0]), ps[1..]);
    }
  }

  /** What fits into one buffer loses nothing. */
  lemma {:induction false} ShortIsRoomy(text: bytes, ps: seq<Piece>)
    requires ArePieces(ps) && |text| + |Joined(text != [], ps)| + 2 <= TEXT_SIZE
    ensures Roomy(|text|, ps) && |Layout(text, ps)| == 1
    decreases |ps|
  {
    if ps != [] {
      assert IsPiece(ps[0]);
      ShortIsRoomy(Put(text, ps[0]), ps[1..]);
    }
  }

  /** Each run of white space between words is one space. */
  function Collapsed(mode: Mode, gap: bool, started: bool, x: bytes): bytes
    decreases |x|
  {
    if x == [] then []
    else if Separates(mode, x[0]) then Collapsed(mode, true, started, x[1..])
    else (if gap && started then [SPACE] else []) + [x[0]] + Collapsed(mode, false, true, x[1..])
  }

  /** The marks that end a text. */
  function Marks(mode: Mode, n: nat): bytes {
    Repeat(Mark(mode), n)
  }

  lemma OneMark(mode: Mode)
    ensures !Separates(mode, Mark(mode)) && Marks(mode, 0) == [] && Marks(mode, 1) == [Mark(mode)]
    ensures Marks(mode, 2) == [Mark(mode), Mark(mode)]
  {
  }

  lemma CollapsedFirst(mode: Mode, gap: bool, started: bool, c: byte, rest: bytes)
    ensures Collapsed(mode, gap, started, [c] + rest)
            == if Separates(mode, c) then Collapsed(mode, true, started, rest)
               else (if gap && started then [SPACE] else []) + [c] + Collapsed(mode, false, true, rest)
  {
    assert ([c] + rest)[1..] == rest;
  }

  lemma CollapsedMarks(mode: Mode, gap: bool, started: bool, n: nat, rest: bytes)
    requires 0 < n <= Limit(mode)
    ensures Collapsed(mode, gap, started, Marks(mode, n) + rest)
            == (if gap && started then [SPACE] else []) + Marks(mode, n) + Collapsed(mode, false, true, rest)
  {
    hide Collapsed, Separates, IsSpace;
    OneMark(mode);
    var m := [Mark(mode)];
    if n == 1 {
      CollapsedFirst(mode, gap, started, Mark(mode), rest);
    } else {
      assert Marks(mode, 2) + rest == m + (m + rest);
      CollapsedFirst(mode, gap, started, Mark(mode), m + rest);
      CollapsedFirst(mode, false, true, Mark(mode), rest);
      assert [] + m + Collapsed(mode, false, true, rest) == m + Collapsed(mode, false, true, rest);
      assert Marks(mode, 2) == m + m;
    }
  }

  lemma PiecesFirst(mode: Mode, gap: bool, held: nat, c: byte, rest: bytes)
    requires held <= Limit(mode)
    ensures Pieces(mode, gap, held, [c] + rest)
            == PieceOf(mode, gap, held, c) + Pieces(mode, Gap(mode, gap, held, c), Held(mode, held, c), rest)
    ensures [] + Pieces(mode, Gap(mode, gap, held, c), Held(mode, held, c), rest)
            == Pieces(mode, Gap(mode, gap, held, c), Held(mode, held, c), rest)
  {
    assert ([c] + rest)[1..] == rest;
  }

  lemma JoinedFirst(started: bool, p: Piece, rest: seq<Piece>)
    ensures Joined(started, [p] + rest)
            == (if p.gap && started then [SPACE] else []) + p.data + Joined(true, rest)
    ensures [] + rest == rest
  {
    assert ([p] + rest)[1..] == rest;
  }

  /** Of marks in a row, all go into the buffer but the last ones, which are held back. */
  lemma {:induction false} MarksEnd(mode: Mode, gap: bool, started: bool, held: nat, n: nat)
    requires held <= Limit(mode) && (Limit(mode) == 0 ==> n == 0)
    ensures Joined(started, Pieces(mode, gap, held, Marks(mode, n)))
            == Collapsed(mode, gap, started, Marks(mode, if held + n < Limit(mode) then 0 else held + n - Limit(mode)))
    decreases n
  {
    hide Joined, Pieces, Collapsed, PieceOf, Repeat, Separates;
    Nothing(mode, gap, started, held);
    OneMark(mode);
    if n == 0 {
    } else if held < Limit(mode) {
      NextMark(mode, gap, held, n);
      MarksEnd(mode, gap, started, held + 1, n - 1);
    } else {
      NextMark(mode, gap, held, n);
      var m, rest := Mark(mode), Marks(mode, n - 1);
      MarksEnd(mode, false, true, held, n - 1);
      CollapsedFirst(mode, gap, started, m, rest);
      JoinedFirst(started, Piece(gap, if mode == Data then 1 else 2, [m]), Pieces(mode, false, held, rest));
    }
  }

  /** A mark more in front of others is held back, or goes into the buffer in place of one that is. */
  lemma NextMark(mode: Mode, gap: bool, held: nat, n: nat)
    requires held <= Limit(mode) && Limit(mode) > 0 && n > 0
    ensures Marks(mode, n) == [Mark(mode)] + Marks(mode, n - 1)
    ensures Pieces(mode, gap, held, Marks(mode, n))
            == if held < Limit(mode) then Pieces(mode, gap, held + 1, Marks(mode, n - 1))
               else [Piece(gap, if mode == Data then 1 else 2, [Mark(mode)])]
                    + Pieces(mode, false, held, Marks(mode, n - 1))
  {
    OneMark(mode);
    assert Marks(mode, n) == [Mark(mode)] + Marks(mode, n - 1);
    PiecesFirst(mode, gap, held, Mark(mode), Marks(mode, n - 1));
    hide Pieces;
  }

  lemma Nothing(mode: Mode, gap: bool, started: bool, held: nat)
    requires held <= Limit(mode)
    ensures Pieces(mode, gap, held, []) == [] && Joined(started, []) == [] && Collapsed(mode, gap, started, []) == []
  {
  }

  /**
   * All that goes into the buffers, when the marks at the end are left out, is the text with each run of white space
   * between words as one space.
   */
  lemma {:induction false} PiecesCollapse(mode: Mode, gap: bool, started: bool, held: nat, x: bytes)
    requires held <= Limit(mode)
    ensures Joined(started, Pieces(mode, gap, held, x + Marks(mode, Limit(mode))))
            == Collapsed(mode, gap, started, Marks(mode, held) + x)
    decreases |x|
  {
    var end := Marks(mode, Limit(mode));
    OneMark(mode);
    if x == [] {
      MarksEnd(mode, gap, started, held, Limit(mode));
      assert x + end == end && Marks(mode, held) + x == Marks(mode, held);
    } else {
      var c, rest := x[0], x[1..];
      var gap', held' := Gap(mode, gap, held, c), Held(mode, held, c);
      assert x + end == [c] + (rest + end) && Marks(mode, held) + x == Marks(mode, held) + [c] + rest;
      PiecesFirst(mode, gap, held, c, rest + end);
      var ps := PieceOf(mode, gap, held, c);
      PiecesCollapse(mode, gap', started || ps != [], held', rest);
      CollapsedOn(mode, gap, started, held, c, rest);
      if ps != [] {
        JoinedFirst(started, ps[0], Pieces(mode, gap', held', rest + end));
      }
    }
  }

  /** The text with one byte more in front, by what that byte puts into the buffer. */
  lemma CollapsedOn(mode: Mode, gap: bool, started: bool, held: nat, c: byte, rest: bytes)
    requires held <= Limit(mode)
    ensures var ps := PieceOf(mode, gap, held, c);
            var behind := Collapsed(mode, Gap(mode, gap, held, c), started || ps != [],
                                    Marks(mode, Held(mode, held, c)) + rest);
            Collapsed(mode, gap, started, Marks(mode, held) + [c] + rest)
            == if ps == [] then behind else (if gap && started then [SPACE] else []) + ps[0].data + behind
  {
    OneMark(mode);
    Nothing(mode, gap, started, held);
    var marks := Marks(mode, held);
    assert marks + [c] + rest == marks + ([c] + rest);
    if IsMark(mode, c) {
      MarksMove(mode, held, rest);
      CollapsedFirst(mode, gap, started, c, marks + rest);
      hide Collapsed;
    } else {
      hide Collapsed;
      CollapsedPlain(mode, gap, started, held, c, rest);
    }
  }

  lemma CollapsedPlain(mode: Mode, gap: bool, started: bool, held: nat, c: byte, rest: bytes)
    requires held <= Limit(mode)
    ensures Marks(mode, 0) + rest == rest
    ensures Collapsed(mode, gap, started, Marks(mode, held) + ([c] + rest))
            == if !Separates(mode, c) then
                 (if gap && started then [SPACE] else []) + (Marks(mode, held) + [c]) + Collapsed(mode, false, true, rest)
               else if held == 0 then Collapsed(mode, true, started, rest)
               else (if gap && started then [SPACE] else []) + Marks(mode, held) + Collapsed(mode, true, true, rest)
  {
    var space := if gap && started then [SPACE] else [];
    if held == 0 {
      assert Marks(mode, 0) == [] && [] + ([c] + rest) == [c] + rest && [] + [c] == [c];
      CollapsedFirst(mode, gap, started, c, rest);
    } else {
      CollapsedMarks(mode, gap, started, held, [c] + rest);
      CollapsedFirst(mode, false, true, c, rest);
      hide Collapsed, Separates, Repeat;
      FourParts(space, Marks(mode, held), c, Collapsed(mode, false, true, rest));
    }
  }

  lemma FourParts(space: bytes, marks: bytes, c: byte, rest: bytes)
    ensures space + marks + ([] + [c] + rest) == space + (marks + [c]) + rest
  {
  }

  lemma MarksMove(mode: Mode, held: nat, rest: bytes)
    ensures Marks(mode, held) + ([Mark(mode)] + rest) == Marks(mode, held + 1) + rest == [Mark(mode)] + (Marks(mode, held) + rest)
  {
  }

  /** The words of a text, the first of which has begun with `current`. */
  function WordsFrom(x: bytes, current: bytes): seq<bytes>
    decreases |x|
  {
    if x == [] then (if current == [] then [] else [current])
    else if IsSpace(x[0]) then (if current == [] then [] else [current]) + WordsFrom(x[1..], [])
    else WordsFrom(x[1..], current + [x[0]])
  }

  function WordsOf(x: bytes): seq<bytes> {
    WordsFrom(x, [])
  }

  /** Words with single spaces between them. */
  function Spaced(words: seq<bytes>): bytes {
    if words == [] then [] else if |words| == 1 then words[0] else words[0] + [SPACE] + Spaced(words[1..])
  }

  predicate AreWords(words: seq<bytes>) {
    forall i :: 0 <= i < |words| ==> words[i] != [] && Solid(words[i])
  }

  predicate Solid(x: bytes) {
    forall i :: 0 <= i < |x| ==> !IsSpace(x[i])
  }

  lemma {:induction false} WordsAreWords(x: bytes, current: bytes)
    requires Solid(current)
    ensures AreWords(WordsFrom(x, current))
    decreases |x|
  {
    if x != [] {
      WordsAreWords(x[1..], if IsSpace(x[0]) then [] else current + [x[0]]);
    }
  }

  lemma SpacedMore(word: bytes, words: seq<bytes>)
    ensures Spaced([word] + words) == word + if words == [] then [] else [SPACE] + Spaced(words)
  {
    assert ([word] + words)[1..] == words;
    if words != [] {
      Associative(word, [SPACE], Spaced(words));
    }
  }

  /** What follows a word that has begun with `current`, or the white space behind a word, or nothing at all. */
  lemma {:induction false} CollapsedIsSpaced(mode: Mode, gap: bool, x: bytes, current: bytes)
    requires mode != Data
    ensures current + Collapsed(mode, false, true, x) == Spaced(WordsFrom(x, current)) || current == []
    ensures Collapsed(mode, true, true, x) == if WordsOf(x) == [] then [] else [SPACE] + Spaced(WordsOf(x))
    ensures Collapsed(mode, gap, false, x) == Spaced(WordsOf(x))
    decreases |x|
  {
    if x == [] {
      assert Spaced([current]) == current == current + [];
    } else if IsSpace(x[0]) {
      CollapsedIsSpaced(mode, true, x[1..], []);
      SpacedMore(current, WordsOf(x[1..]));
      assert [] + WordsOf(x[1..]) == WordsOf(x[1..]);
    } else {
      var c, rest := [x[0]], Collapsed(mode, false, true, x[1..]);
      CollapsedIsSpaced(mode, true, x[1..], current + c);
      CollapsedIsSpaced(mode, true, x[1..], c);
      assert [] + c == c && [] + c + rest == c + rest;
      Associative(current, c, rest);
      assert [SPACE] + c + rest == [SPACE] + (c + rest);
      WordBegun(x[1..], c);
    }
  }

  lemma {:induction false} WordBegun(x: bytes, current: bytes)
    requires current != []
    ensures WordsFrom(x, current) != []
    decreases |x|
  {
    if x != [] && !IsSpace(x[0]) {
      WordBegun(x[1..], current + [x[0]]);
    }
  }

  lemma {:induction false} WordRead(word: bytes, rest: bytes, current: bytes)
    requires Solid(word)
    ensures WordsFrom(word + rest, current) == WordsFrom(rest, current + word)
    decreases |word|
  {
    if word == [] {
      assert word + rest == rest && current + word == current;
    } else {
      assert (word + rest)[1..] == word[1..] + rest;
      assert current + [word[0]] + word[1..] == current + word;
      WordRead(word[1..], rest, current + [word[0]]);
    }
  }

  /** Words with single spaces between them are read back as those words. */
  lemma {:induction false} SpacedRead(words: seq<bytes>)
    requires AreWords(words)
    ensures WordsOf(Spaced(words)) == words
  {
    if words != [] {
      var w := words[0];
      if |words| == 1 {
        WordRead(w, [], []);
        assert w + [] == w && [] + w == w && words == [w];
      } else {
        var behind := Spaced(words[1..]);
        SpacedRead(words[1..]);
        WordRead(w, [SPACE] + behind, []);
        assert w + ([SPACE] + behind) == w + [SPACE] + behind && [] + w == w && ([SPACE] + behind)[1..] == behind;
        assert words == [w] + words[1..];
      }
    }
  }

  /** A text without its white space. */
  function Letters(x: bytes): bytes {
    if x == [] then [] else (if IsSpace(x[0]) then [] else [x[0]]) + Letters(x[1..])
  }

  lemma {:induction false} LettersJoin(a: bytes, b: bytes)
    ensures Letters(a + b) == Letters(a) + Letters(b)
  {
    if a == [] {
      assert a + b == b;
    } else {
      assert (a + b)[1..] == a[1..] + b;
      LettersJoin(a[1..], b);
    }
  }

  /** Whatever happens to the spaces, no other byte is lost or moved. */
  lemma {:induction false} LettersLaid(n: nat, started: bool, ps: seq<Piece>)
    ensures Letters(Laid(n, ps)) == Letters(Joined(started, ps))
    decreases |ps|
  {
    if ps != [] {
      var p, a, b := ps[0], Laid(Fill(n, ps[0]), ps[1..]), Joined(true, ps[1..]);
      LettersLaid(Fill(n, p), true, ps[1..]);
      assert Letters([SPACE]) == Letters([]);
      var s, t := if p.gap && 0 < n && n + p.need <= TEXT_SIZE then [SPACE] else [], if p.gap && started then [SPACE] else [];
      LettersJoin(s, p.data);
      LettersJoin(t, p.data);
      LettersJoin(s + p.data, a);
      LettersJoin(t + p.data, b);
    }
  }

  lemma {:induction false} LettersCollapsed(mode: Mode, gap: bool, started: bool, x: bytes)
    ensures Letters(Collapsed(mode, gap, started, x)) == Letters(x)
    decreases |x|
  {
    if x != [] {
      LettersCollapsed(mode, if Separates(mode, x[0]) then true else false, if Separates(mode, x[0]) then started else true, x[1..]);
      if !Separates(mode, x[0]) {
        var s, rest := if gap && started then [SPACE] else [], Collapsed(mode, false, true, x[1..]);
        assert Letters([SPACE]) == [];
        assert [x[0]][1..] == [];
        LettersJoin(s + [x[0]], rest);
        LettersJoin(s, [x[0]]);
      }
    }
  }

  /** The pieces of a text that ends with the marks that close it. */
  function PiecesOf(mode: Mode, x: bytes): (ps: seq<Piece>)
    ensures ArePieces(ps)
  {
    Pieces(mode, false, 0, x + Marks(mode, Limit(mode)))
  }

  /** What arrives of a text. */
  function Kept(mode: Mode, x: bytes): bytes {
    Laid(0, PiecesOf(mode, x))
  }

  /** Wherever a word begins, the buffer is empty or has room for a space and what follows. */
  predicate Complete(mode: Mode, x: bytes) {
    Roomy(0, PiecesOf(mode, x))
  }

  lemma KeptIs(mode: Mode, x: bytes)
    ensures Joined(false, PiecesOf(mode, x)) == Collapsed(mode, false, false, x)
    ensures Letters(Kept(mode, x)) == Letters(x)
    ensures Kept(mode, x) == Collapsed(mode, false, false, x) <==> Complete(mode, x)
  {
    hide Pieces, Laid, Joined, Collapsed, Letters, Roomy;
    PiecesCollapse(mode, false, false, 0, x);
    assert Marks(mode, 0) + x == x;
    LettersLaid(0, false, PiecesOf(mode, x));
    LettersCollapsed(mode, false, false, x);
    LaidIff(0, PiecesOf(mode, x));
  }

  /**
   * The words of a text arrive with single spaces between them, if and only if there is always room for the space; all
   * other bytes arrive in any case, in their order.
   */
  lemma KeptWords(mode: Mode, x: bytes)
    requires mode != Data
    ensures Kept(mode, x) == Spaced(WordsOf(x)) <==> Complete(mode, x)
    ensures WordsOf(Spaced(WordsOf(x))) == WordsOf(x)
    ensures Letters(Kept(mode, x)) == Letters(x)
  {
    hide Kept, Complete;
    KeptIs(mode, x);
    CollapsedIsSpaced(mode, false, x, []);
    WordsAreWords(x, []);
    SpacedRead(WordsOf(x));
  }

  /** There is room for everything in a text of less than a buffer, and it arrives in one. */
  lemma ShortKept(mode: Mode, x: bytes)
    requires mode != Data && |Spaced(WordsOf(x))| + 2 <= TEXT_SIZE
    ensures Complete(mode, x) && |Layout([], PiecesOf(mode, x))| == 1
  {
    KeptIs(mode, x);
    CollapsedIsSpaced(mode, false, x, []);
    ShortIsRoomy([], PiecesOf(mode, x));
  }

  predicate Gapless(ps: seq<Piece>) {
    forall i :: 0 <= i < |ps| ==> !ps[i].gap
  }

  lemma {:induction false} SolidGapless(mode: Mode, held: nat, x: bytes)
    requires held <= Limit(mode) && (mode == Data || Solid(x))
    ensures Gapless(Pieces(mode, false, held, x))
    decreases |x|
  {
    if x != [] {
      SolidGapless(mode, Held(mode, held, x[0]), x[1..]);
    }
  }

  lemma {:induction false} GaplessRoomy(n: nat, ps: seq<Piece>)
    requires Gapless(ps)
    ensures Roomy(n, ps)
    decreases |ps|
  {
    if ps != [] {
      GaplessRoomy(Fill(n, ps[0]), ps[1..]);
    }
  }

  lemma {:induction false} SolidCollapsed(mode: Mode, started: bool, x: bytes)
    requires mode == Data || Solid(x)
    ensures Collapsed(mode, false, started, x) == x
    decreases |x|
  {
    if x != [] {
      SolidCollapsed(mode, true, x[1..]);
    }
  }

  /** A CDATA section, and a text without white space, arrives byte for byte, at any length and behind whatever there is. */
  lemma SolidKept(mode: Mode, n: nat, x: bytes)
    requires mode == Data || Solid(x)
    ensures Laid(n, PiecesOf(mode, x)) == x
  {
    OneMark(mode);
    var y := x + Marks(mode, Limit(mode));
    assert mode == Data || Solid(y);
    hide Pieces, Laid, Joined, Collapsed, Roomy, Gapless;
    SolidGapless(mode, 0, y);
    GaplessRoomy(n, Pieces(mode, false, 0, y));
    LaidIff(n, Pieces(mode, false, 0, y));
    PiecesCollapse(mode, false, n > 0, 0, x);
    assert Marks(mode, 0) + x == x;
    SolidCollapsed(mode, n > 0, x);
  }

  lemma {:induction false} LaidRepeat(c: byte, n: nat, k: nat, rest: bytes)
    requires !IsSpace(c) && n + k <= TEXT_SIZE - 1
    ensures Laid(n, Pieces(Characters, false, 0, Repeat(c, k) + rest))
            == Repeat(c, k) + Laid(n + k, Pieces(Characters, false, 0, rest))
    ensures Roomy(n, Pieces(Characters, false, 0, Repeat(c, k) + rest)) <==> Roomy(n + k, Pieces(Characters, false, 0, rest))
    decreases k
  {
    hide Laid, Roomy, Pieces;
    if k == 0 {
      assert Repeat(c, 0) + rest == rest;
      assert Repeat(c, 0) + Laid(n + k, Pieces(Characters, false, 0, rest)) == Laid(n, Pieces(Characters, false, 0, rest));
    } else {
      var more := Repeat(c, k - 1) + rest;
      PiecesFirst(Characters, false, 0, c, more);
      LaidFirst(n, c, Pieces(Characters, false, 0, more));
      LaidRepeat(c, n + 1, k - 1, rest);
      RepeatMore(c, k, rest);
      RepeatMore(c, k, Laid(n + k, Pieces(Characters, false, 0, rest)));
    }
  }

  lemma RepeatMore(c: byte, k: nat, rest: bytes)
    requires k > 0
    ensures Repeat(c, k) + rest == [c] + (Repeat(c, k - 1) + rest)
  {
  }

  lemma LaidFirst(n: nat, c: byte, ps: seq<Piece>)
    requires n + 2 <= TEXT_SIZE
    ensures Laid(n, [Piece(false, 2, [] + [c])] + ps) == [c] + Laid(n + 1, ps)
    ensures Roomy(n, [Piece(false, 2, [] + [c])] + ps) <==> Roomy(n + 1, ps)
  {
    var p := Piece(false, 2, [] + [c]);
    assert ([p] + ps)[1..] == ps && [] + [c] == [c];
    assert [] + [c] + Laid(n + 1, ps) == [c] + Laid(n + 1, ps);
  }

  /** For example, behind 4095 letters there is no room for a space with what follows. */
  lemma SpaceIsLost()
    ensures var x := Repeat('a' as int, 4095) + Ascii(" b");
            !Complete(Characters, x) && Kept(Characters, x) == Repeat('a' as int, 4095) + Ascii("b")
  {
    var a, rest := Repeat('a' as int, 4095), Ascii(" b");
    var x := a + rest;
    assert rest == [SPACE] + [0x62];
    assert x + Marks(Characters, 0) == x;
    LaidRepeat('a' as int, 0, 4095, rest);
    PiecesFirst(Characters, false, 0, SPACE, [0x62]);
    PiecesFirst(Characters, true, 0, 0x62, []);
    var p := Piece(true, 2, [] + [0x62]);
    assert [0x62] + [] == [0x62] && [p] + [] == [p];
    assert !Roomy(4095, [p]) && Laid(4095, [p]) == [0x62];
  }

  predicate Blank(x: bytes) {
    forall i :: 0 <= i < |x| ==> IsSpace(x[i])
  }

  /** White space before the first word makes no difference. */
  lemma {:induction false} FirstGap(mode: Mode, held: nat, x: bytes)
    requires mode != Data && held <= Limit(mode)
    ensures Laid(0, Pieces(mode, true, held, x)) == Laid(0, Pieces(mode, false, held, x))
    decreases |x|
  {
    if x != [] {
      var c, rest := x[0], x[1..];
      assert x == [c] + rest;
      PiecesFirst(mode, true, held, c, rest);
      PiecesFirst(mode, false, held, c, rest);
      if PieceOf(mode, true, held, c) == [] {
        FirstGap(mode, Held(mode, held, c), rest);
      } else {
        var ps := Pieces(mode, Separates(mode, c), Held(mode, held, c), rest);
        FirstLaid(PieceOf(mode, true, held, c)[0], ps);
      }
    }
  }

  lemma FirstLaid(p: Piece, ps: seq<Piece>)
    ensures Laid(0, [p] + ps) == Laid(0, [p.(gap := false)] + ps)
  {
    assert ([p] + ps)[1..] == ps && ([p.(gap := false)] + ps)[1..] == ps;
  }

  lemma {:induction false} WhiteBefore(mode: Mode, gap: bool, white: bytes, x: bytes)
    requires mode != Data && Blank(white)
    ensures Laid(0, Pieces(mode, gap, 0, white + x)) == Laid(0, Pieces(mode, false, 0, x))
    decreases |white|
  {
    if white == [] {
      FirstGap(mode, 0, x);
      assert white + x == x;
    } else {
      assert white + x == [white[0]] + (white[1..] + x);
      PiecesFirst(mode, gap, 0, white[0], white[1..] + x);
      WhiteIsNoMark(mode, white[0]);
      hide Laid, Pieces;
      WhiteBefore(mode, true, white[1..], x);
    }
  }

  lemma WhiteIsNoMark(mode: Mode, c: byte)
    requires mode != Data && IsSpace(c)
    ensures !IsMark(mode, c) && PieceOf(mode, false, 0, c) == PieceOf(mode, true, 0, c) == []
    ensures Gap(mode, false, 0, c) && Gap(mode, true, 0, c) && Held(mode, 0, c) == 0
  {
  }

  lemma {:induction false} WhiteBehind(gap: bool, x: bytes, white: bytes)
    requires Blank(white)
    ensures Pieces(Characters, gap, 0, x + white) == Pieces(Characters, gap, 0, x)
    decreases |x| + |white|
  {
    if x != [] {
      assert (x + white)[1..] == x[1..] + white;
      WhiteBehind(Gap(Characters, gap, 0, x[0]), x[1..], white);
    } else if white != [] {
      assert x + white == white && [] + white[1..] == white[1..];
      WhiteIsNoMark(Characters, white[0]);
      WhiteBehind(true, [], white[1..]);
    } else {
      assert x + white == x;
    }
  }

  /** White space around character data is lost, and white space alone is nothing. */
  lemma KeptTrimmed(before: bytes, x: bytes, behind: bytes)
    requires Blank(before) && Blank(behind)
    ensures Kept(Characters, before + x + behind) == Kept(Characters, x) && Kept(Characters, before) == []
  {
    assert before + x + behind + Marks(Characters, 0) == before + x + behind && x + Marks(Characters, 0) == x;
    assert before + Marks(Characters, 0) == before + [];
    hide Pieces, Laid;
    WhiteBehind(false, before + x, behind);
    WhiteBefore(Characters, false, before, x);
    WhiteBefore(Characters, false, before, []);
    Nothing(Characters, false, false, 0);
    assert Laid(0, []) == [] by {
      LaidNothing();
    }
  }

  lemma LaidNothing()
    ensures Laid(0, []) == []
  {
  }

  lemma {:induction false} CollapsedShort(mode: Mode, gap: bool, started: bool, x: bytes)
    ensures |Collapsed(mode, gap, started, x)| <= |x| + if gap && started then 1 else 0
    decreases |x|
  {
    if x != [] {
      CollapsedShort(mode, Separates(mode, x[0]), started || !Separates(mode, x[0]), x[1..]);
      if Separates(mode, x[0]) {
        CollapsedShort(mode, true, started, x[1..]);
      }
    }
  }

  lemma {:induction false} WordsTrimmed(x: bytes, current: bytes)
    ensures WordsFrom(x + [SPACE], current) == WordsFrom(x, current) && WordsOf([SPACE] + x) == WordsOf(x)
    decreases |x|
  {
    assert ([SPACE] + x)[1..] == x && [] + WordsOf(x) == WordsOf(x);
    if x == [] {
      assert x + [SPACE] == [SPACE] && [SPACE][1..] == x && WordsOf(x) == [];
    } else {
      assert (x + [SPACE])[1..] == x[1..] + [SPACE];
      WordsTrimmed(x[1..], if IsSpace(x[0]) then [] else current + [x[0]]);
    }
  }

  /** A text arrives as it is if and only if it is words with single spaces and there is always room for those. */
  lemma KeptAsIs(mode: Mode, x: bytes, text: bytes)
    requires mode != Data && (x == text || x == [SPACE] + text + [SPACE])
    ensures Kept(mode, x) == text <==> Complete(mode, x) && text == Spaced(WordsOf(text))
  {
    hide Kept, Complete, Collapsed, Laid, Joined;
    KeptIs(mode, x);
    CollapsedIsSpaced(mode, false, x, []);
    if x != text {
      WordsTrimmed([SPACE] + text, []);
      WordsTrimmed(text, []);
    }
    assert WordsOf(x) == WordsOf(text);
    if !Complete(mode, x) {
      KeptIsLess(mode, x);
      CollapsedShort(mode, false, false, text);
      CollapsedIsSpaced(mode, false, text, []);
    }
  }

  lemma KeptIsLess(mode: Mode, x: bytes)
    requires !Complete(mode, x)
    ensures |Kept(mode, x)| < |Collapsed(mode, false, false, x)|
  {
    hide Pieces, Laid, Joined, Collapsed, Roomy;
    KeptIs(mode, x);
    LaidIff(0, PiecesOf(mode, x));
  }
}

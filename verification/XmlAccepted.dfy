/** Whatever the XML parser accepts is a document, or what may stand before the root element of one. */
module XmlAccepted {
  import opened Bytes
  import opened Sequences
  import opened XmlDocument
  import opened XmlMachine
  import opened XmlMarkup
  import opened XmlParser
  import opened XmlReading
  import opened XmlText
  import HttpNames

  /** The input may end where it does. */
  ghost predicate Accepts(s: Session, x: bytes) {
    |s.content.items| == |s.content.parents| && Run(s, x).Going? && Run(s, x).session.machine.state in {0, 45}
  }

  lemma GoesOn(s: Session, a: bytes, t: Session, b: bytes)
    requires Leads(s, a, t) && Accepts(s, a + b)
    ensures Accepts(t, b)
  {
    hide Run;
    RunJoins(s, a, b);
  }

  /** The first byte is not refused, and the input does not end where it must not. */
  lemma FirstByte(s: Session, x: bytes)
    requires Accepts(s, x) && (x != [] || s.machine.state !in {0, 45})
    ensures x != [] && Advance(s, x[0]).Going? && Accepts(Advance(s, x[0]).session, x[1..])
    ensures Leads(s, [x[0]], Advance(s, x[0]).session)
  {
    hide Advance;
    LeadsByte(s, x[0], Advance(s, x[0]).session);
  }

  lemma {:induction false} SplitWhite(x: bytes) returns (white: bytes, rest: bytes)
    ensures x == white + rest && Blank(white) && (rest == [] || !IsSpace(rest[0]))
    decreases |x|
  {
    if x == [] || !IsSpace(x[0]) {
      white, rest := [], x;
    } else {
      white, rest := SplitWhite(x[1..]);
      white := [x[0]] + white;
    }
  }

  /** The rest of a name that is being read. */
  lemma {:induction false} SplitName(s: Session, x: bytes) returns (name: bytes, rest: bytes, t: Session)
    requires Accepts(s, x) && s.machine.state in {21, 23, 43}
    requires (if s.machine.state == 23 then |s.machine.attributeName| else |s.machine.element|) <= 256
    ensures x == name + rest && Leads(s, name, t) && t == Session(Named(s.machine, name), s.content)
    ensures forall i :: 0 <= i < |name| ==> IsNameChar(name[i])
    ensures (if s.machine.state == 23 then |s.machine.attributeName| else |s.machine.element|) + |name| <= 256
    ensures Accepts(t, rest) && rest != [] && !IsNameChar(rest[0])
    decreases |x|
  {
    hide Accepts, Leads, IsNameChar, Advance;
    AcceptsSound(s, x);
    FirstByte(s, x);
    if IsNameChar(x[0]) {
      TooLong(s, x[0]);
      FewEnd(s, x[0]);
      NameByte(s, x[0]);
      var u := Session(Named(s.machine, [x[0]]), s.content);
      assert [x[0]] + x[1..] == x;
      GoesOn(s, [x[0]], u, x[1..]);
      name, rest, t := SplitName(u, x[1..]);
      LeadsOn(s, [x[0]], u, name, t);
      NamedTwice(s.machine, x[0], name);
      name := [x[0]] + name;
    } else {
      name, rest, t := [], x, s;
      LeadsNowhere(s);
      NamedNothing(s.machine);
    }
  }

  lemma AcceptsSound(s: Session, x: bytes)
    requires Accepts(s, x)
    ensures |s.content.items| == |s.content.parents|
  {
  }

  /** An end tag is read only inside an element. */
  lemma FewEnd(s: Session, c: byte)
    requires |s.content.items| == |s.content.parents| && Advance(s, c).Going?
    ensures s.machine.state in {42, 43, 44} ==> s.machine.depth > 0
  {
  }

  lemma NamedTwice(m: Machine, c: byte, rest: bytes)
    ensures Named(Named(m, [c]), rest) == Named(m, [c] + rest)
  {
    Associative(m.attributeName, [c], rest);
    Associative(m.element, [c], rest);
  }

  lemma NamedNothing(m: Machine)
    ensures Named(m, []) == m
  {
    assert m.attributeName + [] == m.attributeName && m.element + [] == m.element;
  }

  /** The rest of a value, up to its closing quote. */
  lemma {:induction false} SplitValue(s: Session, x: bytes) returns (value: bytes, rest: bytes)
    requires Accepts(s, x) && s.machine.state == 27 && |s.machine.text| <= 4096
    ensures x == value + [s.machine.quotes] + rest && s.machine.quotes !in value && AllChars(value)
    ensures |s.machine.text| + |value| <= 4096
    decreases |x|
  {
    hide Accepts, Leads, IsChar;
    FirstByte(s, x);
    assert x == [x[0]] + x[1..];
    if x[0] == s.machine.quotes {
      value, rest := [], x[1..];
    } else {
      var u := Session(s.machine.(text := s.machine.text + [x[0]]), s.content);
      assert Advance(s, x[0]) == Going(u) by {
        AcceptsSound(s, x);
        TooLong(s, x[0]);
      }
      value, rest := SplitValue(u, x[1..]);
      value := [x[0]] + value;
      assert IsChar(x[0]) by {
        ValueByte(s, x[0]);
      }
    }
  }

  lemma ValueByte(s: Session, c: byte)
    requires |s.content.items| == |s.content.parents| && s.machine.state in {26, 27} && c != s.machine.quotes
    requires Advance(s, c).Going?
    ensures IsChar(c)
  {
    hide IsChar;
  }

  /** A value, from behind its opening quote. */
  lemma SplitQuoted(s: Session, x: bytes) returns (value: bytes, rest: bytes)
    requires Accepts(s, x) && s.machine.state == 26
    ensures x == value + [s.machine.quotes] + rest && s.machine.quotes !in value && AllChars(value) && |value| <= 4096
  {
    hide Accepts, Leads;
    FirstByte(s, x);
    assert x == [x[0]] + x[1..];
    if x[0] == s.machine.quotes {
      value, rest := [], x[1..];
    } else {
      AcceptsSound(s, x);
      ValueByte(s, x[0]);
      var u := Session(s.machine.(state := 27, text := [x[0]]), s.content);
      assert Advance(s, x[0]) == Going(u);
      value, rest := SplitValue(u, x[1..]);
      value := [x[0]] + value;
    }
  }

  /** An attribute, from the first letter of its name. */
  lemma SplitAttribute(s: Session, before: bytes, x: bytes) returns (w: Written, rest: bytes)
    requires Accepts(s, x) && s.machine.state == 22 && x != [] && IsNameStart(x[0]) && before != [] && Blank(before)
    ensures IsWritten(w) && w.before == before && before + x == WrittenText(w) + rest
  {
    hide Accepts, Leads, IsNameStart, IsNameChar, IsSpace;
    AcceptsSound(s, x);
    FirstByte(s, x);
    var a := Session(s.machine.(state := 23, attributeName := [x[0]]), s.content);
    assert Advance(s, x[0]) == Going(a);
    var name, y, b := SplitName(a, x[1..]);
    var left, z := SplitWhite(y);
    var c := LeftRun(b, left);
    GoesOn(b, left, c, z);
    FirstByte(c, z);
    EqualsComes(c, z[0]);
    var d := Advance(c, z[0]).session;
    var right, q := SplitWhite(z[1..]);
    WhiteRun(d, right);
    GoesOn(d, right, d, q);
    FirstByte(d, q);
    QuoteComes(d, q[0]);
    var value;
    value, rest := SplitQuoted(Advance(d, q[0]).session, q[1..]);
    w := Written(before, [x[0]] + name, left, right, q[0], value);
    NameIs(x[0], name);
    assert before + x == WrittenText(w) + rest by {
      hide WrittenText;
      AttributeTogether(w, x, name, left, right, q, rest, y, z);
    }
  }

  lemma NameIs(c: byte, rest: bytes)
    requires IsNameStart(c) && |rest| <= 255 && forall i :: 0 <= i < |rest| ==> IsNameChar(rest[i])
    ensures IsName([c] + rest)
  {
    hide IsNameStart;
  }

  /** Behind the name of an attribute and white space comes an equals sign. */
  lemma EqualsComes(s: Session, c: byte)
    requires |s.content.items| == |s.content.parents| && s.machine.state in {23, 24} && Advance(s, c).Going?
    requires !IsSpace(c) && (s.machine.state == 23 ==> !IsNameChar(c))
    ensures c == EQ && Advance(s, c) == Going(InState(s, 25))
  {
    WhiteIs(c);
    hide IsNameChar, IsWhite, IsSpace;
  }

  lemma QuoteComes(s: Session, c: byte)
    requires |s.content.items| == |s.content.parents| && s.machine.state == 25 && Advance(s, c).Going? && !IsSpace(c)
    ensures c as char == '"' || c as char == '\''
    ensures Advance(s, c) == Going(Session(s.machine.(state := 26, quotes := c), s.content))
  {
    WhiteIs(c);
    hide IsWhite, IsSpace;
  }

  lemma AttributeTogether(w: Written, x: bytes, name: bytes, left: bytes, right: bytes, q: bytes, rest: bytes, y: bytes, z: bytes)
    requires x != [] && z != [] && q != [] && x[1..] == name + y && y == left + z && z[0] == EQ && z[1..] == right + q
    requires q[1..] == w.value + [w.quotes] + rest && w.quotes == q[0]
    requires w.name == [x[0]] + name && w.left == left && w.right == right
    ensures w.before + x == WrittenText(w) + rest
  {
    FirstOff(x, name + y);
    FirstOff(z, right + q);
    FirstOff(q, w.value + [w.quotes] + rest);
    Associative([x[0]], name, y);
    AttributeParts(w, rest);
  }

  lemma FirstOff(x: bytes, tail: bytes)
    requires x != [] && x[1..] == tail
    ensures x == [x[0]] + tail
  {
  }

  lemma AttributeParts(w: Written, rest: bytes)
    ensures w.before + (w.name + (w.left + ([EQ] + (w.right + ([w.quotes] + (w.value + [w.quotes] + rest))))))
            == WrittenText(w) + rest
  {
    var e, f, g := [EQ], [w.quotes], w.value;
    var r6 := g + f + rest;
    var r5 := f + r6;
    var r4 := w.right + r5;
    var r3 := e + r4;
    var r2 := w.left + r3;
    Associative(w.before, w.name, r2);
    Associative(w.before + w.name, w.left, r3);
    Associative(w.before + w.name + w.left, e, r4);
    Associative(w.before + w.name + w.left + e, w.right, r5);
    Associative(w.before + w.name + w.left + e + w.right, f, r6);
    LastParts(w.before + w.name + w.left + e + w.right + f, g, f, rest);
  }

  lemma LastParts(a: bytes, b: bytes, c: bytes, d: bytes)
    ensures a + (b + c + d) == a + b + c + d
  {
  }


  /** The attributes of a start tag and the white space behind them, up to the byte that ends the tag. */
  lemma {:induction false} SplitAttributes(
    s: Session, depth: nat, element: bytes, attributes: seq<Attribute>, x: bytes)
    returns (ws: seq<Written>, gap: bytes, rest: bytes, t: Session)
    requires Accepts(s, x) && InTag(s.machine, depth, element, attributes)
    requires s.machine.state == 21 ==> x == [] || !IsNameChar(x[0])
    ensures AreWritten(ws) && Blank(gap) && x == WrittenAll(ws) + gap + rest
    ensures |t.content.items| == |t.content.parents| && t.content == s.content
    ensures InOpenTag(t.machine, depth, element, attributes + AttributesOf(ws)) && Accepts(t, rest)
    ensures rest != [] && (rest[0] == GT || rest[0] == SLASH)
    decreases |x|
  {
    hide Accepts, Leads, IsNameStart, IsNameChar, IsSpace, IsWritten, WrittenText;
    AcceptsSound(s, x);
    FirstByte(s, x);
    var y;
    gap, y := SplitWhite(x);
    var a := GapRun(s, depth, element, attributes, gap);
    GoesOn(s, gap, a, y);
    AcceptsSound(a, y);
    FirstByte(a, y);
    TagGoesOn(a, depth, element, attributes, y[0]);
    if y[0] == GT || y[0] == SLASH {
      ws, rest, t := [], y, a;
      assert attributes + AttributesOf(ws) == attributes;
      assert [] + gap + rest == gap + rest;
    } else {
      var w, z := SplitAttribute(a, gap, y);
      WrittenParts(w);
      assert gap + y == x;
      var b := AttributeRun(s, depth, element, attributes, w);
      GoesOn(s, WrittenText(w), b, z);
      var first := Attribute(w.name, w.value);
      ws, gap, rest, t := SplitAttributes(b, depth, element, attributes + [first], z);
      AttributesTogether(w, ws, gap, rest);
      Associative(attributes, [first], AttributesOf(ws));
      ws := [w] + ws;
    }
  }

  lemma AttributesTogether(w: Written, ws: seq<Written>, gap: bytes, rest: bytes)
    ensures WrittenText(w) + (WrittenAll(ws) + gap + rest) == WrittenAll([w] + ws) + gap + rest
    ensures AttributesOf([w] + ws) == [Attribute(w.name, w.value)] + AttributesOf(ws)
    ensures AreWritten(ws) && IsWritten(w) ==> AreWritten([w] + ws)
  {
    assert ([w] + ws)[1..] == ws;
    hide WrittenText, IsWritten;
  }

  /** What may follow inside a start tag. */
  lemma TagGoesOn(s: Session, depth: nat, element: bytes, attributes: seq<Attribute>, c: byte)
    requires |s.content.items| == |s.content.parents| && InOpenTag(s.machine, depth, element, attributes)
    requires Advance(s, c).Going? && !IsSpace(c) && (s.machine.state == 21 ==> !IsNameChar(c))
    ensures c == GT || c == SLASH || (s.machine.state == 22 && IsNameStart(c))
  {
    WhiteIs(c);
    hide IsNameChar, IsNameStart, IsWhite, IsSpace;
  }

  /** A start tag, behind its `<`, up to the byte that ends it. */
  lemma SplitHead(s: Session, depth: nat, x: bytes)
    returns (name: bytes, ws: seq<Written>, gap: bytes, rest: bytes, t: Session)
    requires Accepts(s, x) && AtTag(s.machine, depth) && x != [] && IsNameStart(x[0])
    ensures IsName(name) && AreWritten(ws) && Blank(gap) && x == name + WrittenAll(ws) + gap + rest
    ensures |t.content.items| == |t.content.parents| && t.content == s.content
    ensures InOpenTag(t.machine, depth, name, AttributesOf(ws)) && Accepts(t, rest)
    ensures rest != [] && (rest[0] == GT || rest[0] == SLASH)
  {
    hide Accepts, Leads, IsNameStart, IsNameChar, IsSpace, WrittenAll, AreWritten;
    AcceptsSound(s, x);
    FirstByte(s, x);
    var a := Session(s.machine.(state := 21, element := [x[0]], hasRoot := true), s.content);
    assert Advance(s, x[0]) == Going(a);
    var more, y, b := SplitName(a, x[1..]);
    NameIs(x[0], more);
    name := [x[0]] + more;
    ws, gap, rest, t := SplitAttributes(b, depth, name, [], y);
    assert [] + AttributesOf(ws) == AttributesOf(ws);
    assert x == [x[0]] + (more + y);
    assert x == name + y;
    assert name + (WrittenAll(ws) + gap + rest) == name + WrittenAll(ws) + gap + rest;
  }

  /** An end tag, behind its slash. */
  lemma SplitEnd(s: Session, x: bytes) returns (end: bytes, gap: bytes, rest: bytes)
    requires Accepts(s, x) && s.machine.state == 42 && s.machine.depth > 0
    requires 0 <= s.content.parent < |s.content.items|
    ensures IsName(end) && Blank(gap) && x == end + gap + [GT] + rest
    ensures Names(s.content.items[s.content.parent].text, end)
  {
    hide Accepts, Leads, IsNameStart, IsNameChar, IsSpace, Names;
    AcceptsSound(s, x);
    FirstByte(s, x);
    var a := Session(s.machine.(state := 43, element := [x[0]]), s.content);
    assert IsNameStart(x[0]) && Advance(s, x[0]) == Going(a);
    var more, y, b := SplitName(a, x[1..]);
    NameIs(x[0], more);
    end := [x[0]] + more;
    var z;
    gap, z := SplitWhite(y);
    var c := EndGapRun(b, gap);
    GoesOn(b, gap, c, z);
    AcceptsSound(c, z);
    FirstByte(c, z);
    EndComes(c, z[0]);
    rest := z[1..];
    assert z == [GT] + rest;
    assert x == [x[0]] + (more + (gap + z));
    assert x == end + gap + [GT] + rest;
  }

  lemma EndComes(s: Session, c: byte)
    requires |s.content.items| == |s.content.parents| && s.machine.state in {43, 44} && s.machine.depth > 0
    requires Advance(s, c).Going? && !IsSpace(c) && (s.machine.state == 43 ==> !IsNameChar(c))
    requires 0 <= s.content.parent < |s.content.items|
    ensures c == GT && Names(s.content.items[s.content.parent].text, s.machine.element)
  {
    WhiteIs(c);
    hide IsNameChar, IsWhite, IsSpace, Names;
  }


  /** A comment, an instruction, a document type or a CDATA section, up to the byte that ends it. */
  lemma {:induction false} SplitBody(s: Session, mode: Mode, held: nat, x: bytes) returns (body: bytes, rest: bytes)
    requires Accepts(s, x) && Reads(s.machine, mode, held) && mode != Characters
    ensures x == body + [GT] + rest && AllContinue(mode, held, body) && HeldAfter(mode, held, body) == Limit(mode)
    decreases |x|
  {
    hide Accepts, Leads, IsChar, Advance, Next;
    AcceptsSound(s, x);
    FirstByte(s, x);
    var c := x[0];
    assert x == [c] + x[1..];
    if c == GT && held == Limit(mode) {
      body, rest := [], x[1..];
    } else {
      CharComes(s, mode, held, c);
      ByteRead(s, mode, held, c);
      GoesOn(s, [c], Next(s, mode, held, c), x[1..]);
      body, rest := SplitBody(Next(s, mode, held, c), mode, Held(mode, held, c), x[1..]);
      BodyMore(mode, held, c, body);
      body := [c] + body;
    }
  }

  lemma BodyMore(mode: Mode, held: nat, c: byte, body: bytes)
    requires Continues(mode, held, c) && AllContinue(mode, Held(mode, held, c), body)
    ensures AllContinue(mode, held, [c] + body)
    ensures HeldAfter(mode, held, [c] + body) == HeldAfter(mode, Held(mode, held, c), body)
  {
    hide Continues;
    assert ([c] + body)[1..] == body;
  }

  /** Inside of markup every byte is a character. */
  lemma CharComes(s: Session, mode: Mode, held: nat, c: byte)
    requires |s.content.items| == |s.content.parents| && Reads(s.machine, mode, held) && mode != Characters
    requires Advance(s, c).Going? && !(c == GT && held == Limit(mode))
    ensures Continues(mode, held, c)
  {
    if c == MINUS || c == QUESTION || c == RBRACKET {
      MarksAreChars(c);
    }
    hide IsChar, IsWhite;
  }

  lemma MarksAreChars(c: byte)
    requires c == MINUS || c == QUESTION || c == RBRACKET
    ensures IsChar(c)
  {
  }

  /** Held marks are the last bytes read. */
  lemma {:induction false} HeldAreMarks(mode: Mode, x: bytes)
    ensures var n := HeldAfter(mode, 0, x); n <= |x| && x[|x| - n..] == Marks(mode, n)
    decreases |x|
  {
    NothingHeld(mode);
    hide HeldAfter, Held, Repeat;
    if x == [] {
      assert x[|x| - 0..] == [];
    } else {
      var m := |x| - 1;
      HeldAreMarks(mode, x[..m]);
      assert x == x[..m] + [x[m]];
      ContinueJoins(mode, 0, x[..m], [x[m]]);
      HeldOne(mode, HeldAfter(mode, 0, x[..m]), x[m]);
      LastMarks(mode, x[..m], x[m], HeldAfter(mode, 0, x[..m]));
    }
  }

  lemma NothingHeld(mode: Mode)
    ensures HeldAfter(mode, 0, []) == 0 && Marks(mode, 0) == []
  {
  }

  lemma HeldOne(mode: Mode, held: nat, c: byte)
    ensures HeldAfter(mode, held, [c]) == Held(mode, held, c)
  {
    assert |[c][1..]| == 0;
  }

  lemma LastMarks(mode: Mode, y: bytes, c: byte, h: nat)
    requires h <= |y| && y[|y| - h..] == Marks(mode, h) && h <= Limit(mode)
    ensures var n := Held(mode, h, c); n <= |y| + 1 && (y + [c])[|y| + 1 - n..] == Marks(mode, n)
  {
    var n := Held(mode, h, c);
    if n > 0 {
      LastBytes(mode, y, c, h, n);
    } else {
      assert |(y + [c])[|y| + 1..]| == 0;
    }
  }

  lemma LastBytes(mode: Mode, y: bytes, c: byte, h: nat, n: nat)
    requires h <= |y| && y[|y| - h..] == Marks(mode, h) && 0 < n <= h + 1 && c == Mark(mode)
    ensures (y + [c])[|y| + 1 - n..] == Marks(mode, n)
  {
    var s := (y + [c])[|y| + 1 - n..];
    forall i | 0 <= i < n
      ensures s[i] == Mark(mode)
    {
      if i < n - 1 {
        var j := h + 1 - n + i;
        assert s[i] == y[|y| - h..][j] == Marks(mode, h)[j];
      }
    }
  }

  lemma {:induction false} OccursLonger(part: bytes, a: bytes, b: bytes)
    requires Occurs(part, a)
    ensures Occurs(part, a + b)
    decreases |a|
  {
    if part <= a {
      assert (a + b)[..|part|] == a[..|part|];
    } else {
      assert (a + b)[1..] == a[1..] + b;
      OccursLonger(part, a[1..], b);
    }
  }

  /** The text of a body, without the marks at its end; the ending does not occur in it. */
  lemma BodyText(mode: Mode, body: bytes) returns (text: bytes)
    requires mode != Characters && AllContinue(mode, 0, body) && HeldAfter(mode, 0, body) == Limit(mode)
    ensures body == text + Marks(mode, Limit(mode)) && AllChars(text) && !Occurs(Ending(mode), text)
  {
    hide Occurs, IsChar;
    HeldAreMarks(mode, body);
    text := body[..|body| - Limit(mode)];
    ContinuesUntil(mode, 0, body);
    assert Marks(mode, 0) + body == body;
    assert body == text + Marks(mode, Limit(mode));
    if Occurs(Ending(mode), text) {
      OccursLonger(Ending(mode), text, Marks(mode, Limit(mode)));
    }
  }

  /** A text with its ending. */
  lemma SplitText(s: Session, mode: Mode, x: bytes) returns (text: bytes, rest: bytes)
    requires Accepts(s, x) && Reads(s.machine, mode, 0) && mode != Characters
    ensures x == text + Ending(mode) + rest && AllChars(text) && !Occurs(Ending(mode), text)
  {
    hide Occurs, AllChars, Accepts, Repeat;
    var body;
    body, rest := SplitBody(s, mode, 0, x);
    text := BodyText(mode, body);
    Associative(text, Marks(mode, Limit(mode)), [GT]);
  }

  lemma EndingsAre()
    ensures Ending(Remarks) == Ascii("-->") && Ending(Instructions) == Ascii("?>") && Ending(Data) == Ascii("]]>")
    ensures Ending(Doctypes) == [GT]
  {
    OneMark(Remarks);
    OneMark(Instructions);
    OneMark(Data);
    OneMark(Doctypes);
  }


  /** Character data, up to the next `<`. */
  lemma {:induction false} SplitAngle(x: bytes) returns (text: bytes, rest: bytes)
    ensures x == text + rest && LT !in text && (rest == [] || rest[0] == LT)
    decreases |x|
  {
    if x == [] || x[0] == LT {
      text, rest := [], x;
    } else {
      text, rest := SplitAngle(x[1..]);
      text := [x[0]] + text;
    }
  }

  lemma LetterComes(s: Session, word: string, c: byte, i: nat, first: nat)
    requires |s.content.items| == |s.content.parents|
    requires (word == "CDATA" && first == 33) || (word == "OCTYPE" && first == 7)
    requires i < |word| && s.machine.state == first + i && Advance(s, c).Going?
    ensures (c as char == word[i] || c == word[i] as int + 32) && Advance(s, c) == Going(InState(s, first + i + 1))
  {
  }

  /** The letters of a keyword from some letter on. */
  lemma {:induction false} SplitWord(s: Session, word: string, i: nat, first: nat, x: bytes)
    returns (letters: bytes, rest: bytes)
    requires Accepts(s, x) && ((word == "CDATA" && first == 33) || (word == "OCTYPE" && first == 7))
    requires i <= |word| && s.machine.state == first + i
    ensures x == letters + rest && |letters| == |word| - i
    ensures forall k :: 0 <= k < |letters| ==> letters[k] as char == word[i + k] || letters[k] == word[i + k] as int + 32
    ensures Accepts(InState(s, first + |word|), rest)
    decreases |word| - i
  {
    hide Accepts, Leads, Advance;
    if i == |word| {
      letters, rest := [], x;
      assert InState(s, first + |word|) == s;
    } else {
      AcceptsSound(s, x);
      FirstByte(s, x);
      LetterComes(s, word, x[0], i, first);
      var more;
      more, rest := SplitWord(InState(s, first + i + 1), word, i + 1, first, x[1..]);
      letters := [x[0]] + more;
      assert x == [x[0]] + x[1..];
      forall k | 0 <= k < |letters|
        ensures letters[k] as char == word[i + k] || letters[k] == word[i + k] as int + 32
      {
        if k > 0 {
          assert letters[k] == more[k - 1] && word[i + k] == word[i + 1 + (k - 1)];
        }
      }
    }
  }

  /** The byte that leads from one state to the next, where only one does. */
  lemma OnlyByte(s: Session, c: byte)
    requires |s.content.items| == |s.content.parents| && Advance(s, c).Going?
    ensures s.machine.state == 3 ==>
              c == MINUS && Advance(s, c) == Going(Session(s.machine.(state := 4, text := [], lastChar := 0), s.content))
    ensures s.machine.state == 38 ==> c == LBRACKET && Advance(s, c).session.machine.state == 39
    ensures s.machine.state == 29 ==> c == GT
    ensures s.machine.state == 32 ==>
              (c == LBRACKET && Advance(s, c) == Going(InState(s, 33))) || (c == MINUS && Advance(s, c) == Going(InState(s, 3)))
    ensures s.machine.state == 47 ==> c == MINUS && Advance(s, c) == Going(InState(s, 3))
  {
    hide IsChar, IsWhite, IsNameStart, IsNameChar;
  }

  /** A comment, from its first hyphen. */
  lemma SplitNote(s: Session, x: bytes) returns (text: bytes, rest: bytes)
    requires Accepts(s, x) && s.machine.state == 3
    ensures x == [MINUS] + (text + [MINUS, MINUS, GT]) + rest && AllChars(text) && !Occurs(Ascii("-->"), text)
  {
    hide Accepts, Leads, Advance, Occurs, AllChars;
    AcceptsSound(s, x);
    FirstByte(s, x);
    OnlyByte(s, x[0]);
    text, rest := SplitText(Advance(s, x[0]).session, Remarks, x[1..]);
    EndingsAre();
    LiteralsAre();
    hide Ending, Ascii;
    assert x == [x[0]] + x[1..];
    Associative([MINUS], text + [MINUS, MINUS, GT], rest);
  }

  /** A CDATA section, from its keyword. */
  lemma SplitSection(s: Session, x: bytes) returns (letters: bytes, text: bytes, rest: bytes)
    requires Accepts(s, x) && s.machine.state == 33
    ensures x == letters + ([LBRACKET] + (text + [RBRACKET, RBRACKET, GT] + rest)) && IsMarkup(Section(letters, text))
  {
    hide Accepts, Leads, Advance, Occurs, AllChars, Ascii;
    var y;
    letters, y := SplitWord(s, "CDATA", 0, 33, x);
    var a := InState(s, 38);
    AcceptsSound(a, y);
    FirstByte(a, y);
    OnlyByte(a, y[0]);
    text, rest := SplitText(Advance(a, y[0]).session, Data, y[1..]);
    EndingsAre();
    LiteralsAre();
    hide Ending;
    FirstOff(y, text + [RBRACKET, RBRACKET, GT] + rest);
  }

  /** What begins with an exclamation mark inside an element: a comment or a CDATA section. */
  lemma SplitBang(s: Session, x: bytes) returns (m: Markup, rest: bytes)
    requires Accepts(s, x) && s.machine.state == 32
    ensures IsMarkup(m) && (m.Note? || m.Section?) && [BANG] + x == Behind(m) + rest
  {
    hide Accepts, Leads, Advance, Occurs, AllChars, Ascii, Spells;
    AcceptsSound(s, x);
    FirstByte(s, x);
    OnlyByte(s, x[0]);
    LiteralsAre();
    FirstOff(x, x[1..]);
    var text;
    if x[0] == MINUS {
      text, rest := SplitNote(InState(s, 3), x[1..]);
      m := Note(text);
      NoteTogether(text, rest);
    } else {
      var letters;
      letters, text, rest := SplitSection(InState(s, 33), x[1..]);
      m := Section(letters, text);
      SectionTogether(letters, text, rest);
    }
  }

  lemma NoteTogether(text: bytes, rest: bytes)
    ensures [BANG] + ([MINUS] + ([MINUS] + (text + [MINUS, MINUS, GT]) + rest))
            == [BANG, MINUS, MINUS] + (text + [MINUS, MINUS, GT]) + rest
  {
  }

  lemma SectionTogether(letters: bytes, text: bytes, rest: bytes)
    ensures [BANG] + ([LBRACKET] + (letters + ([LBRACKET] + (text + [RBRACKET, RBRACKET, GT] + rest))))
            == [BANG, LBRACKET] + letters + [LBRACKET] + (text + [RBRACKET, RBRACKET, GT]) + rest
  {
  }

  /** A processing instruction, from behind its question mark. */
  lemma SplitOrder(s: Session, x: bytes) returns (text: bytes, rest: bytes)
    requires Accepts(s, x) && s.machine.state == 19
    ensures x == text + [QUESTION, GT] + rest && AllChars(text) && !Occurs(Ascii("?>"), text)
  {
    hide Accepts, Occurs, AllChars;
    text, rest := SplitText(s, Instructions, x);
    EndingsAre();
    LiteralsAre();
  }

  lemma NamesSpell(name: bytes, end: bytes)
    requires Names(name, end) && IsName(name) && IsName(end)
    ensures HttpNames.IsSpelling(end, name)
  {
    NameHasNoNul(name);
    NameHasNoNul(end);
    hide IsName;
    NoNul(name);
    NoNul(end);
    HttpNames.CompareEqual(name, end);
    HttpNames.SameNameIs(name, end);
    forall i | 0 <= i < |name|
      ensures HttpNames.SameLetter(end[i], name[i])
    {
      assert HttpNames.SameLetter(name[i], end[i]);
    }
  }

  /** An element that is there when text is pending was there before. */
  lemma PendingBack(c: Content, kind: Kind, text: bytes, i: nat)
    requires |c.items| == |c.parents| && !kind.Element? && i < |Pending(c, kind, text).items|
    requires Pending(c, kind, text).items[i].kind.Element?
    ensures i < |c.items| && c.items[i] == Pending(c, kind, text).items[i]
  {
  }

  /** The name of the innermost open element. */
  ghost predicate OpenIs(c: Content, name: bytes) {
    0 <= c.parent < |c.items| && c.items[c.parent].kind.Element? && c.items[c.parent].text == name
  }

  lemma OpenStays(s: Session, m: Markup, level: Level, u: Session, name: bytes)
    requires |s.content.items| == |s.content.parents| && |u.content.items| == |u.content.parents|
    requires OpenIs(s.content, name)
    requires Pending(u.content, Text, u.machine.text) == Contents(m, level, Pending(s.content, Text, s.machine.text))
    ensures OpenIs(u.content, name)
  {
    var i := s.content.parent;
    PendingKeeps(s.content, Text, s.machine.text, i);
    ContentsKeep(m, level, Pending(s.content, Text, s.machine.text), i);
    hide Contents;
    PendingBack(u.content, Text, u.machine.text, i);
    hide Pending;
  }


  /** Where the first byte behind a `<` leads inside an element. */
  lemma AngleComes(s: Session, c: byte)
    requires |s.content.items| == |s.content.parents| && s.machine.state == 31 && Advance(s, c).Going?
    ensures IsNameStart(c) || c == SLASH || c == BANG || c == QUESTION
    ensures c == SLASH && !IsNameStart(c) ==> Advance(s, c) == Going(InState(s, 42))
    ensures c == BANG && !IsNameStart(c) ==> Advance(s, c) == Going(InState(s, 32))
    ensures c == QUESTION && !IsNameStart(c) ==> Advance(s, c).session.machine.state == 19
  {
    hide IsNameStart;
  }

  /** Markup that is not text, behind its `<` inside an element. */
  lemma {:induction false} SplitMarkup(s: Session, depth: nat, x: bytes) returns (m: Markup, rest: bytes)
    requires Accepts(s, x) && AtTag(s.machine, depth) && depth > 0 && x != []
    requires IsNameStart(x[0]) || (x[0] != SLASH && x[0] in {BANG, QUESTION})
    ensures IsMarkup(m) && !m.Plain? && x == Behind(m) + rest
    decreases |x|, 1
  {
    hide Accepts, Leads, Advance, Occurs, AllChars, IsNameStart, Ascii;
    AcceptsSound(s, x);
    FirstByte(s, x);
    AngleComes(s, x[0]);
    assert x == [x[0]] + x[1..];
    if IsNameStart(x[0]) {
      hide IsMarkup, Behind;
      m, rest := SplitElement(s, depth, x);
    } else if x[0] == BANG {
      hide IsMarkup, Behind;
      m, rest := SplitBang(InState(s, 32), x[1..]);
    } else {
      var text;
      text, rest := SplitOrder(Advance(s, x[0]).session, x[1..]);
      LiteralsAre();
      m := Order(text);
      OrderTogether(text, rest);
    }
  }

  lemma OrderTogether(text: bytes, rest: bytes)
    ensures [QUESTION] + (text + [QUESTION, GT] + rest) == [QUESTION] + (text + [QUESTION, GT]) + rest
  {
  }

  /** An element, behind its `<`, with everything in it. */
  lemma {:induction false} SplitElement(s: Session, depth: nat, x: bytes) returns (m: Markup, rest: bytes)
    requires Accepts(s, x) && AtTag(s.machine, depth) && x != [] && IsNameStart(x[0])
    ensures IsMarkup(m) && (m.Tagged? || m.Empty?) && x == Behind(m) + rest
    decreases |x|, 0
  {
    hide Accepts, Leads, Advance, IsNameStart, IsName, WrittenAll, AreWritten, Added, Names, Ascii, HttpNames.IsSpelling;
    var name, ws, gap, r, t := SplitHead(s, depth, x);
    LiteralsAre();
    FirstByte(t, r);
    assert r == [r[0]] + r[1..];
    if r[0] == SLASH {
      var a := Advance(t, SLASH).session;
      SlashComes(t, depth, name, AttributesOf(ws));
      AcceptsSound(a, r[1..]);
      FirstByte(a, r[1..]);
      OnlyByte(a, r[1..][0]);
      rest := r[2..];
      m := Empty(name, ws, gap);
      assert r == [SLASH, GT] + rest;
      EmptyTogether(name + WrittenAll(ws) + gap, rest);
    } else {
      var item, n := Item(Element, name, AttributesOf(ws)), |t.content.items|;
      var b := StartTagEnds(t, depth, name, AttributesOf(ws));
      GoesOn(t, [GT], b, r[1..]);
      ElementAdded(t.content, item);
      NamesHidden(name, ws, gap, r, x);
      var inner, end, endGap;
      inner, end, endGap, rest := SplitInside(b, depth + 1, name, r[1..]);
      NamesSpell(name, end);
      m := Tagged(name, ws, gap, inner, end, endGap);
      TaggedParts(m);
      hide TextOfAll;
      TaggedTogether(name + WrittenAll(ws) + gap, TextOfAll(inner), end, endGap, rest);
    }
  }

  lemma NamesHidden(name: bytes, ws: seq<Written>, gap: bytes, r: bytes, x: bytes)
    requires x == name + WrittenAll(ws) + gap + r
    ensures |r| <= |x|
  {
  }

  lemma SlashComes(s: Session, depth: nat, name: bytes, attributes: seq<Attribute>)
    requires |s.content.items| == |s.content.parents| && InOpenTag(s.machine, depth, name, attributes)
    ensures Advance(s, SLASH).Going? && Advance(s, SLASH).session.machine.state == 29
  {
    SlashIsNoName();
    hide IsNameStart, IsNameChar;
  }

  lemma EmptyTogether(head: bytes, rest: bytes)
    ensures head + ([SLASH, GT] + rest) == head + [SLASH, GT] + rest
  {
  }

  lemma TaggedTogether(head: bytes, inner: bytes, end: bytes, gap: bytes, rest: bytes)
    ensures head + ([GT] + (inner + ([LT] + ([SLASH] + end + gap + [GT])) + rest))
            == head + [GT] + inner + [LT] + ([SLASH] + end + gap + [GT]) + rest
  {
  }

  /** What is inside of an element, and its end tag. */
  lemma {:induction false} SplitInside(s: Session, depth: nat, name: bytes, x: bytes)
    returns (ms: seq<Markup>, end: bytes, gap: bytes, rest: bytes)
    requires Accepts(s, x) && Inside(s.machine, depth) && OpenIs(s.content, name)
    ensures AreMarkup(ms) && IsName(end) && Blank(gap) && Names(name, end)
    ensures x == TextOfAll(ms) + ([LT] + ([SLASH] + end + gap + [GT])) + rest
    decreases |x|, 2
  {
    hide Accepts, Leads, Advance, IsNameStart, IsName, Names, Ascii, TextOf, TextOfAll, Behind, IsMarkup, AreMarkup;
    hide Contents, Pending, LevelOf, LevelAfter;
    AcceptsSound(s, x);
    var text, y := SplitAngle(x);
    var u := PlainRun(s, text, depth);
    GoesOn(s, text, u, y);
    AcceptsSound(u, y);
    OpenStays(s, Plain(text), LevelOf(s.machine), u, name);
    InsideTag(u.machine, depth);
    FirstByte(u, y);
    var a := OpenAngle(u);
    assert y == [LT] + y[1..];
    GoesOn(u, [LT], a, y[1..]);
    OpenStaysPending(u.content, u.machine.text, name);
    var z := y[1..];
    AcceptsSound(a, z);
    FirstByte(a, z);
    AngleComes(a, z[0]);
    assert z == [z[0]] + z[1..];
    SlashIsNoName();
    if z[0] == SLASH {
      end, gap, rest := SplitEnd(InState(a, 42), z[1..]);
      ms := [Plain(text)];
      OneText(text);
      EndTogether(text, end, gap, rest);
    } else {
      var m, r := SplitMarkup(a, depth, z);
      var v := MarkupRun(u, m, depth);
      MarkupText(m);
      assert y == TextOf(m) + r by {
        Associative([LT], Behind(m), r);
      }
      GoesOn(u, TextOf(m), v, r);
      AcceptsSound(v, r);
      OpenStays(u, m, LevelOf(u.machine), v, name);
      var more;
      more, end, gap, rest := SplitInside(v, depth, name, r);
      ms := [Plain(text), m] + more;
      TwoMarkups(text, m, more);
      InsideTogether(text, TextOf(m), TextOfAll(more), [LT] + ([SLASH] + end + gap + [GT]), rest);
    }
  }

  lemma SlashIsNoName()
    ensures !IsNameStart(SLASH) && !IsNameStart(BANG) && !IsNameStart(QUESTION)
  {
  }

  lemma OpenStaysPending(c: Content, text: bytes, name: bytes)
    requires |c.items| == |c.parents| && OpenIs(c, name)
    ensures OpenIs(Pending(c, Text, text), name)
  {
    PendingKeeps(c, Text, text, c.parent);
    hide Pending;
  }

  lemma OneText(text: bytes)
    requires LT !in text
    ensures AreMarkup([Plain(text)]) && TextOfAll([Plain(text)]) == text
  {
    PlainIs(text);
    var ms := [Plain(text)];
    assert |ms[1..]| == 0;
    hide TextOf, IsMarkup;
    assert TextOfAll(ms) == text + TextOfAll(ms[1..]) && TextOfAll(ms[1..]) == [] && text + [] == text;
  }

  lemma MarkupText(m: Markup)
    requires !m.Plain?
    ensures TextOf(m) == [LT] + Behind(m) && Behind(m) + [] == Behind(m)
  {
    LiteralsAre();
  }

  lemma PlainIs(text: bytes)
    requires LT !in text
    ensures TextOf(Plain(text)) == text && IsMarkup(Plain(text))
  {
  }

  lemma TwoMarkups(text: bytes, m: Markup, more: seq<Markup>)
    requires LT !in text && IsMarkup(m) && AreMarkup(more)
    ensures AreMarkup([Plain(text), m] + more)
    ensures TextOfAll([Plain(text), m] + more) == text + (TextOf(m) + TextOfAll(more))
  {
    hide TextOf, IsMarkup;
    var ms := [Plain(text), m] + more;
    assert ms[1..] == [m] + more && ([m] + more)[1..] == more;
    assert TextOf(Plain(text)) == text && IsMarkup(Plain(text)) by {
      PlainIs(text);
    }
  }

  lemma EndTogether(text: bytes, end: bytes, gap: bytes, rest: bytes)
    ensures text + ([LT] + ([SLASH] + (end + gap + [GT] + rest))) == text + ([LT] + ([SLASH] + end + gap + [GT])) + rest
  {
  }

  lemma InsideTogether(text: bytes, m: bytes, more: bytes, end: bytes, rest: bytes)
    ensures text + (m + (more + end + rest)) == text + (m + more) + end + rest
  {
  }


  /** The rest of a conditional section, up to its ending. */
  lemma {:induction false} SplitSkipped(s: Session, held: nat, x: bytes) returns (body: bytes, rest: bytes)
    requires Accepts(s, x) && held <= 2 && s.machine.state == 16 + held
    ensures x == body + [GT] + rest && AllContinue(Data, held, body) && HeldAfter(Data, held, body) == 2
    decreases |x|
  {
    hide Accepts, Leads, IsChar, Advance;
    AcceptsSound(s, x);
    FirstByte(s, x);
    var c := x[0];
    assert x == [c] + x[1..];
    if c == GT && held == 2 {
      body, rest := [], x[1..];
    } else {
      SkipComes(s, held, c);
      body, rest := SplitSkipped(InState(s, 16 + Held(Data, held, c)), Held(Data, held, c), x[1..]);
      BodyMore(Data, held, c, body);
      body := [c] + body;
    }
  }

  lemma SkipComes(s: Session, held: nat, c: byte)
    requires |s.content.items| == |s.content.parents| && held <= 2 && s.machine.state == 16 + held
    requires Advance(s, c).Going? && !(c == GT && held == 2)
    ensures Continues(Data, held, c) && Advance(s, c) == Going(InState(s, 16 + Held(Data, held, c)))
  {
    MarksAreChars(RBRACKET);
    hide IsChar, IsWhite;
  }

  /** A conditional section, from behind its bracket. */
  lemma SplitConditional(s: Session, x: bytes) returns (text: bytes, rest: bytes)
    requires Accepts(s, x) && s.machine.state == 16
    ensures x == text + [RBRACKET, RBRACKET, GT] + rest && AllChars(text) && !Occurs(Ascii("]]>"), text)
  {
    hide Occurs, AllChars, Accepts, Repeat;
    var body;
    body, rest := SplitSkipped(s, 0, x);
    text := BodyText(Data, body);
    EndingsAre();
    LiteralsAre();
    Associative(text, Marks(Data, 2), [GT]);
  }

  /** A document type, from the white space behind its keyword. */
  lemma SplitType(s: Session, x: bytes) returns (white: bytes, text: bytes, rest: bytes)
    requires Accepts(s, x) && s.machine.state == 13
    ensures x == white + (text + [GT]) + rest && white != [] && Blank(white)
    ensures text != [] && IsNameStart(text[0]) && AllChars(text) && GT !in text
  {
    hide Accepts, Leads, Advance, IsNameStart, IsSpace;
    AcceptsSound(s, x);
    FirstByte(s, x);
    SpaceComes(s, x[0]);
    var a := InState(s, 14);
    var y;
    white, y := SplitWhite(x[1..]);
    WhiteRun(a, white);
    GoesOn(a, white, a, y);
    FirstByte(a, y);
    LetterBegins(a, y[0]);
    var more;
    more, rest := SplitDeclared(Advance(a, y[0]).session, y[1..]);
    text := [y[0]] + more;
    NameStartIs(y[0]);
    TypeTogether(x, white, y, more, rest);
    white := [x[0]] + white;
  }

  lemma SpaceComes(s: Session, c: byte)
    requires |s.content.items| == |s.content.parents| && s.machine.state == 13 && Advance(s, c).Going?
    ensures IsSpace(c) && Advance(s, c) == Going(InState(s, 14))
  {
    WhiteIs(c);
    hide IsWhite, IsSpace;
  }

  lemma LetterBegins(s: Session, c: byte)
    requires |s.content.items| == |s.content.parents| && s.machine.state == 14 && Advance(s, c).Going? && !IsSpace(c)
    ensures IsNameStart(c) && Advance(s, c).session.machine.state == 15
  {
    WhiteIs(c);
    hide IsWhite, IsSpace, IsNameStart;
  }

  lemma SplitDeclared(s: Session, x: bytes) returns (text: bytes, rest: bytes)
    requires Accepts(s, x) && s.machine.state == 15
    ensures x == text + [GT] + rest && AllChars(text) && GT !in text
  {
    hide Accepts, Occurs, AllChars;
    text, rest := SplitText(s, Doctypes, x);
    EndingsAre();
    NotInside(text);
  }

  lemma {:induction false} NotInside(x: bytes)
    requires !Occurs([GT], x)
    ensures GT !in x
    decreases |x|
  {
    if x != [] {
      assert [x[0]] <= x;
      NotInside(x[1..]);
    }
  }

  lemma TypeTogether(x: bytes, white: bytes, y: bytes, more: bytes, rest: bytes)
    requires x != [] && y != [] && x[1..] == white + y && y[1..] == more + [GT] + rest
    ensures x == [x[0]] + white + ([y[0]] + more + [GT]) + rest
  {
    assert x == [x[0]] + (white + ([y[0]] + (more + [GT] + rest)));
  }

  /** Where the bytes behind a `<` lead outside of all elements. */
  lemma OutsideComes(s: Session, state: nat, c: byte)
    requires |s.content.items| == |s.content.parents| && state in {0, 45} && s.machine.state == Angled(state)
    requires Advance(s, c).Going?
    ensures c == QUESTION || c == BANG || (state == 0 && IsNameStart(c))
    ensures c == QUESTION ==> Advance(s, c).session.machine.state == 19
    ensures c == BANG ==> Advance(s, c) == Going(InState(s, Angled(state) + 1))
  {
    SlashIsNoName();
    hide IsNameStart;
  }

  lemma BangComes(s: Session, c: byte)
    requires |s.content.items| == |s.content.parents| && s.machine.state in {2, 47} && Advance(s, c).Going?
    ensures c == MINUS || (s.machine.state == 2 && (c == 0x44 || c == 0x64 || c == LBRACKET))
    ensures c == MINUS ==> Advance(s, c) == Going(InState(s, 3))
    ensures c == LBRACKET ==> Advance(s, c) == Going(InState(s, 16))
    ensures c == 0x44 || c == 0x64 ==> Advance(s, c) == Going(InState(s, 7))
  {
  }

  lemma OpenComes(s: Session, state: nat, c: byte)
    requires |s.content.items| == |s.content.parents| && state in {0, 45} && s.machine.state == state
    requires Advance(s, c).Going? && !IsSpace(c)
    ensures c == LT && Advance(s, c) == Going(InState(s, Angled(state)))
  {
    WhiteIs(c);
    hide IsWhite, IsSpace;
  }

  /** Something between `<!` and `>` outside of all elements. */
  lemma SplitDeclaration(s: Session, x: bytes) returns (m: Misc, rest: bytes)
    requires Accepts(s, x) && s.machine.state in {2, 47}
    ensures !m.Space? && IsMisc(m, s.machine.state == 2) && [LT, BANG] + x == MiscText(m) + rest
  {
    AcceptsSound(s, x);
    FirstByte(s, x);
    BangComes(s, x[0]);
    LiteralsAre();
    MiscLiteralsAre();
    hide Accepts, Leads, Advance, Occurs, AllChars, Ascii, IsNameStart, IsSpace;
    var y := x[1..];
    assert x == [x[0]] + y;
    var text;
    if x[0] == MINUS {
      text, rest := SplitNote(InState(s, 3), y);
      m := Aside(text);
      AsideTogether(text, rest);
    } else if x[0] == LBRACKET {
      text, rest := SplitConditional(InState(s, 16), y);
      m := Skipped(text);
      SkippedTogether(text, rest);
    } else {
      var letters, z := SplitWord(InState(s, 7), "OCTYPE", 0, 7, y);
      var white;
      white, text, rest := SplitType(InState(InState(s, 7), 13), z);
      KeywordWhole(x[0], letters);
      m := Type([x[0]] + letters, white, text);
      DeclaredTogether(x[0], letters, white, text + [GT], rest);
    }
  }

  lemma KeywordWhole(c: byte, letters: bytes)
    requires c in {0x44, 0x64} && |letters| == 6
    requires forall k :: 0 <= k < 6 ==> letters[k] as char == "OCTYPE"[k] || letters[k] == "OCTYPE"[k] as int + 32
    ensures Spells([c] + letters, "DOCTYPE")
  {
    var w := [c] + letters;
    forall i | 0 <= i < 7
      ensures w[i] as char == "DOCTYPE"[i] || w[i] == "DOCTYPE"[i] as int + 32
    {
      if i > 0 {
        assert w[i] == letters[i - 1] && "DOCTYPE"[i] == "OCTYPE"[i - 1];
      }
    }
  }

  lemma AsideTogether(text: bytes, rest: bytes)
    ensures [LT, BANG] + ([MINUS] + ([MINUS] + (text + [MINUS, MINUS, GT]) + rest))
            == [LT, BANG, MINUS, MINUS] + (text + [MINUS, MINUS, GT]) + rest
  {
  }

  lemma SkippedTogether(text: bytes, rest: bytes)
    ensures [LT, BANG] + ([LBRACKET] + (text + [RBRACKET, RBRACKET, GT] + rest))
            == [LT, BANG, LBRACKET] + (text + [RBRACKET, RBRACKET, GT]) + rest
  {
  }

  lemma DeclaredTogether(c: byte, letters: bytes, white: bytes, text: bytes, rest: bytes)
    ensures [LT, BANG] + ([c] + (letters + (white + text + rest))) == [LT, BANG] + ([c] + letters) + white + text + rest
  {
  }

  lemma DirectionTogether(text: bytes, rest: bytes)
    ensures [LT] + ([QUESTION] + (text + [QUESTION, GT] + rest)) == [LT, QUESTION] + (text + [QUESTION, GT]) + rest
  {
  }

  lemma SplitDirection(s: Session, x: bytes, before: bool) returns (m: Misc, rest: bytes)
    requires Accepts(s, x) && s.machine.state == 19
    ensures !m.Space? && IsMisc(m, before) && [LT] + ([QUESTION] + x) == MiscText(m) + rest
  {
    hide Accepts, Occurs, AllChars, Ascii;
    var text;
    text, rest := SplitOrder(s, x);
    m := Direction(text);
    LiteralsAre();
    MiscLiteralsAre();
    DirectionTogether(text, rest);
  }

  /** One thing outside of all elements, behind its `<`. */
  lemma SplitOutside(s: Session, state: nat, x: bytes) returns (m: Misc, rest: bytes)
    requires Accepts(s, x) && state in {0, 45} && s.machine.state == Angled(state)
    requires x != [] && !IsNameStart(x[0])
    ensures !m.Space? && IsMisc(m, state == 0) && [LT] + x == MiscText(m) + rest
  {
    hide Accepts, Leads, Advance, IsNameStart, IsMisc, MiscText;
    AcceptsSound(s, x);
    FirstByte(s, x);
    OutsideComes(s, state, x[0]);
    FirstOff(x, x[1..]);
    if x[0] == QUESTION {
      m, rest := SplitDirection(Advance(s, x[0]).session, x[1..], state == 0);
    } else {
      m, rest := SplitDeclaration(InState(s, Angled(state) + 1), x[1..]);
      assert [LT] + ([BANG] + x[1..]) == [LT, BANG] + x[1..];
    }
  }

  /** All that stands outside of the elements, up to the root element or the end. */
  lemma {:induction false} SplitMisc(s: Session, state: nat, x: bytes) returns (ms: seq<Misc>, rest: bytes, t: Session)
    requires Accepts(s, x) && state in {0, 45} && Outside(s.machine, state)
    ensures AreMisc(ms, state == 0) && x == MiscTexts(ms) + rest
    ensures Accepts(t, rest) && Outside(t.machine, state)
    ensures rest == [] || (state == 0 && |rest| > 1 && rest[0] == LT && IsNameStart(rest[1]))
    decreases |x|
  {
    hide Accepts, Leads, Advance, IsNameStart, IsSpace, IsMisc, MiscText, MiscTexts, AreMisc;
    AcceptsSound(s, x);
    var white, y := SplitWhite(x);
    WhiteRun(s, white);
    GoesOn(s, white, s, y);
    SpaceIsMisc(white, state == 0);
    if y == [] {
      ms, rest, t := [Space(white)], [], s;
    } else {
      FirstByte(s, y);
      OpenComes(s, state, y[0]);
      var a := InState(s, Angled(state));
      var z := y[1..];
      assert y == [LT] + z;
      AcceptsSound(a, z);
      FirstByte(a, z);
      OutsideComes(a, state, z[0]);
      if state == 0 && IsNameStart(z[0]) {
        ms, rest, t := [Space(white)], y, s;
      } else {
        assert !IsNameStart(z[0]) by {
          SlashIsNoName();
        }
        var m, r := SplitOutside(a, state, z);
        var b := MiscRun(s, state, m);
        GoesOn(s, MiscText(m), b, r);
        MiscIsLong(m, z, r);
        var more;
        more, rest, t := SplitMisc(b, state, r);
        TwoMisc(white, m, more, state == 0);
        MiscTogether(white, MiscText(m), MiscTexts(more), rest);
        ms := [Space(white), m] + more;
      }
    }
  }

  lemma SpaceIsMisc(white: bytes, before: bool)
    requires Blank(white)
    ensures AreMisc([Space(white)], before) && MiscTexts([Space(white)]) == white && IsMisc(Space(white), before)
    ensures white + [] == white
  {
    assert |[Space(white)][1..]| == 0;
    assert white + [] == white;
  }

  /** What has been read is not empty. */
  lemma MiscIsLong(m: Misc, z: bytes, rest: bytes)
    requires [LT] + z == MiscText(m) + rest && !m.Space?
    ensures |rest| <= |z|
  {
    MiscLiteralsAre();
    hide Ascii;
    assert |MiscText(m)| > 0;
  }

  lemma TwoMisc(white: bytes, m: Misc, more: seq<Misc>, before: bool)
    requires Blank(white) && IsMisc(m, before) && AreMisc(more, before)
    ensures AreMisc([Space(white), m] + more, before)
    ensures MiscTexts([Space(white), m] + more) == white + (MiscText(m) + MiscTexts(more))
  {
    SpaceIsMisc(white, before);
    var ms := [Space(white), m] + more;
    assert ms[1..] == [m] + more && ([m] + more)[1..] == more;
    assert MiscText(Space(white)) == white;
    hide IsMisc, MiscText;
  }

  lemma MiscTogether(white: bytes, m: bytes, more: bytes, rest: bytes)
    ensures white + (m + (more + rest)) == white + (m + more) + rest
  {
  }


  const START := Session(Initial(), Content([], [], -1))

  /** A document, or what may stand before the root element of one. */
  datatype File = Rooted(document: Markups) | Rootless(prolog: seq<Misc>)

  predicate IsFile(f: File) {
    match f
    case Rooted(d) => IsDocument(d)
    case Rootless(prolog) => AreMisc(prolog, true)
  }

  function FileText(f: File): bytes {
    match f
    case Rooted(d) => DocumentText(d)
    case Rootless(prolog) => MiscTexts(prolog)
  }

  function FileContents(f: File): Content {
    match f
    case Rooted(d) => DocumentContents(d)
    case Rootless(prolog) => MiscsContents(prolog, Content([], [], -1))
  }

  /** Whatever is accepted is a file. */
  lemma AcceptedIsFile(x: bytes) returns (f: File)
    requires Accepts(START, x)
    ensures IsFile(f) && x == FileText(f)
  {
    hide Accepts, Leads, Advance, IsNameStart, IsMarkup, Behind, AreMisc, MiscTexts;
    AcceptsSound(START, x);
    var prolog, y, a := SplitMisc(START, 0, x);
    if y == [] {
      f := Rootless(prolog);
    } else {
      AcceptsSound(a, y);
      RootOpens(a);
      var b, z := InState(a, 1), y[1..];
      assert y == [LT] + z;
      GoesOn(a, [LT], b, z);
      var root, r := SplitElement(b, 0, z);
      AcceptsSound(b, z);
      var c := RootRun(b, root);
      GoesOn(b, Behind(root), c, r);
      AcceptsSound(c, r);
      var rest, e, t := SplitMisc(c, 45, r);
      f := Rooted(Markups(prolog, root, rest));
      LiteralsAre();
      FileTogether(MiscTexts(prolog), Behind(root), MiscTexts(rest));
    }
  }

  lemma RootRun(s: Session, root: Markup) returns (t: Session)
    requires |s.content.items| == |s.content.parents| && AtTag(s.machine, 0) && IsMarkup(root)
    requires root.Tagged? || root.Empty?
    ensures Leads(s, Behind(root), t) && Outside(t.machine, 45)
  {
    hide Leads, IsMarkup, Behind, Contents;
    if root.Tagged? {
      t := TaggedRun(s, root, 0);
    } else {
      t := EmptyRun(s, root, 0);
    }
  }

  lemma FileTogether(prolog: bytes, root: bytes, rest: bytes)
    ensures prolog + ([LT] + (root + (rest + []))) == prolog + ([LT] + root) + rest
  {
  }

  /** And every file is accepted, and read as what it stands for. */
  lemma FileIsAccepted(f: File)
    requires IsFile(f)
    ensures Accepts(START, FileText(f)) && Run(START, FileText(f)).Going?
    ensures Run(START, FileText(f)).session.content == FileContents(f)
  {
    hide IsDocument, DocumentText, DocumentContents, AreMisc, MiscTexts, MiscsContents;
    match f
    case Rooted(d) =>
      hide Run;
      var s := DocumentRead(d);
    case Rootless(prolog) =>
      var s := MiscsRun(START, 0, prolog);
  }

  /** So the parser accepts exactly the files, and what it makes of one is what that stands for. */
  lemma AcceptsIff(x: bytes)
    ensures Accepts(START, x) <==> exists f :: IsFile(f) && x == FileText(f)
    ensures forall f :: IsFile(f) && x == FileText(f) ==> Run(START, x).session.content == FileContents(f)
  {
    hide Accepts, IsFile, FileText, FileContents, Run;
    if Accepts(START, x) {
      var f := AcceptedIsFile(x);
    }
    forall f | IsFile(f) && x == FileText(f)
      ensures Accepts(START, x) && Run(START, x).Going? && Run(START, x).session.content == FileContents(f)
    {
      FileIsAccepted(f);
    }
  }

  /** Loads a document from a file that is read in pieces. */
  method Load(chunks: seq<bytes>) returns (ok: bool, document: Document)
    ensures fresh(document) && document.Valid()
    ensures ok <==> exists f :: IsFile(f) && Flatten(chunks) == FileText(f)
    ensures ok ==> forall f :: IsFile(f) && Flatten(chunks) == FileText(f) ==> document.View() == FileContents(f)
  {
    hide IsFile, FileText, FileContents, Run, Flatten, Fits;
    document := new Document();
    var parser := new Parser(document);
    AcceptsIff(Flatten(chunks));
    ok := parser.ParseFile(chunks);
  }
}

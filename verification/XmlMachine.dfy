/** The state machine of the XML parser, a byte at a time; states are numbered as in the parser. */
module XmlMachine {
  import opened Bytes
  import opened XmlDocument

  const NAME_MAX: nat := 256
  const TEXT_SIZE: nat := 4096

  const LT: byte := 0x3c
  const GT: byte := 0x3e
  const EQ: byte := 0x3d
  const BANG: byte := 0x21
  const LBRACKET: byte := 0x5b
  const RBRACKET: byte := 0x5d

  /** A `char` taken as an `unsigned`: the sign of a byte above 127 is extended. */
  function Widened(b: byte): nat {
    if b < 0x80 then b else 0xffff_ff00 + b
  }

  predicate IsChar(b: byte) {
    var c := Widened(b);
    c == 0x09 || c == 0x0a || c == 0x0d || 0x20 <= c <= 0xff
  }

  predicate IsWhite(b: byte) {
    b == SPACE || b == TAB || b == CR || b == LF
  }

  predicate IsNameStart(b: byte) {
    var c := Widened(b);
    || c == 0x3a || 0x41 <= c <= 0x5a || c == 0x5f || 0x61 <= c <= 0x7a
    || 0xc0 <= c <= 0xd6 || 0xd8 <= c <= 0xf6 || 0xf8 <= c <= 0xff
  }

  predicate IsNameChar(b: byte) {
    IsNameStart(b) || b == MINUS || b == DOT || 0x30 <= b <= 0x39 || Widened(b) == 0xb7
  }

  /** The fields of the parser, apart from its position. */
  datatype Machine = Machine(
    state: nat, depth: nat, hasRoot: bool, element: bytes, attributes: seq<Attribute>, attributeName: bytes,
    text: bytes, lastChar: byte, quotes: byte)

  datatype Callback =
    | OnDoctype(text: bytes)
    | OnProcessingInstruction(text: bytes)
    | OnComment(text: bytes)
    | OnCharacterData(text: bytes)
    | OnElementStart(name: bytes, attributes: seq<Attribute>)
    | OnEmptyElement(name: bytes, attributes: seq<Attribute>)
    | OnElementEnd(name: bytes)

  /** A byte is refused, or moves the machine on, perhaps with a callback. */
  datatype Move = Refused | Moved(machine: Machine) | Called(machine: Machine, callback: Callback)

  function To(m: Machine, state: nat): Move {
    Moved(m.(state := state))
  }

  /** Goes on if the byte is one of two letters. */
  function Expect(m: Machine, c: byte, upper: byte, lower: byte, state: nat): Move {
    if c == upper || c == lower then To(m, state) else Refused
  }

  /** Stays for white space and refuses everything else. */
  function Skip(m: Machine, c: byte): Move {
    if IsWhite(c) then Moved(m) else Refused
  }

  /** Adds bytes to the text, which is handed over first if it might overflow; white space before them becomes a space. */
  function Collect(m: Machine, need: nat, added: bytes, call: bytes -> Callback): (move: Move)
    ensures !move.Refused? && move.machine == m.(text := move.machine.text)
    ensures |added| < need <= TEXT_SIZE ==> |move.machine.text| <= TEXT_SIZE
    ensures move.Called? ==> move.callback == call(m.text)
  {
    var full := |m.text| + need > TEXT_SIZE;
    var text := if full then [] else m.text;
    var spaced := if IsWhite(m.lastChar) && text != [] then text + [SPACE] else text;
    var next := m.(text := spaced + added);
    if full then Called(next, call(m.text)) else Moved(next)
  }

  function WithLast(move: Move, c: byte, state: nat): Move {
    match move
    case Refused => Refused
    case Moved(m) => Moved(m.(lastChar := c, state := state))
    case Called(m, callback) => Called(m.(lastChar := c, state := state), callback)
  }

  /** Outside of markup: where the parser goes after a comment or a processing instruction. */
  function Resume(m: Machine): Machine {
    if !m.hasRoot then m.(state := 0)
    else if m.depth > 0 then m.(state := 30, text := [], lastChar := 0)
    else m.(state := 45)
  }

  /** States 0 to 18: the prolog, comments, the document type and conditional sections. */
  function StepProlog(m: Machine, c: byte): Move {
    match m.state
    case 0 => if c == LT then To(m, 1) else Skip(m, c)
    case 1 =>
      if IsNameStart(c) then Moved(m.(state := 21, element := [c], hasRoot := true))
      else if c == BANG then To(m, 2)
      else if c == QUESTION then Moved(m.(state := 19, text := [], lastChar := 0))
      else Refused
    case 2 =>
      if c == MINUS then To(m, 3)
      else if c == 0x44 || c == 0x64 then To(m, 7)
      else if c == LBRACKET then To(m, 16)
      else Refused
    case 3 => if c == MINUS then Moved(m.(state := 4, text := [], lastChar := 0)) else Refused
    case 4 =>
      if c == MINUS then To(m, 5)
      else if !IsChar(c) then Refused
      else if IsWhite(c) then Moved(m.(lastChar := c))
      else WithLast(Collect(m, 2, [c], t => OnComment(t)), c, 4)
    case 5 =>
      if c == MINUS then To(m, 6)
      else if IsChar(c) then
        WithLast(Collect(m, 3, if IsWhite(c) then [MINUS] else [MINUS, c], t => OnComment(t)), c, 4)
      else Refused
    case 6 =>
      if c == GT then if m.text != [] then Called(Resume(m), OnComment(m.text)) else Moved(Resume(m))
      else if c == MINUS then WithLast(Collect(m, 2, [MINUS], t => OnComment(t)), MINUS, 6)
      else if IsChar(c) then
        WithLast(Collect(m, 4, if IsWhite(c) then [MINUS, MINUS] else [MINUS, MINUS, c], t => OnComment(t)), c, 4)
      else Refused
    case 7 => Expect(m, c, 0x4f, 0x6f, 8)
    case 8 => Expect(m, c, 0x43, 0x63, 9)
    case 9 => Expect(m, c, 0x54, 0x74, 10)
    case 10 => Expect(m, c, 0x59, 0x79, 11)
    case 11 => Expect(m, c, 0x50, 0x70, 12)
    case 12 => Expect(m, c, 0x45, 0x65, 13)
    case 13 => if IsWhite(c) then To(m, 14) else Refused
    case 14 => if IsNameStart(c) then Moved(m.(state := 15, text := [c], lastChar := c)) else Skip(m, c)
    case 15 =>
      if c == GT then Called(m.(state := 0), OnDoctype(m.text))
      else if !IsChar(c) then Refused
      else if IsWhite(c) then Moved(m.(lastChar := c))
      else WithLast(Collect(m, 2, [c], t => OnDoctype(t)), c, 15)
    case 16 => if c == RBRACKET then To(m, 17) else if IsChar(c) then Moved(m) else Refused
    case 17 => if c == RBRACKET then To(m, 18) else if IsChar(c) then To(m, 16) else Refused
    case 18 =>
      if c == GT then To(m, 0) else if !IsChar(c) then Refused else if c == RBRACKET then Moved(m) else To(m, 16)
    case _ => Refused
  }

  function StartElement(m: Machine, attributes: seq<Attribute>): Move {
    Called(m.(state := 30, depth := m.depth + 1, attributes := attributes, text := [], lastChar := 0),
           OnElementStart(m.element, attributes))
  }

  /** States 19 to 29: processing instructions and start tags with their attributes. */
  function StepTag(m: Machine, c: byte): Move {
    match m.state
    case 19 =>
      if c == QUESTION then To(m, 20)
      else if !IsChar(c) then Refused
      else if IsWhite(c) then Moved(m.(lastChar := c))
      else WithLast(Collect(m, 2, [c], t => OnProcessingInstruction(t)), c, 19)
    case 20 =>
      if c == GT then
        if m.text != [] then Called(Resume(m), OnProcessingInstruction(m.text)) else Moved(Resume(m))
      else if c == QUESTION then WithLast(Collect(m, 2, [QUESTION], t => OnProcessingInstruction(t)), QUESTION, 20)
      else if IsChar(c) then
        WithLast(Collect(m, 3, if IsWhite(c) then [QUESTION] else [QUESTION, c], t => OnProcessingInstruction(t)), c, 19)
      else Refused
    case 21 =>
      if IsWhite(c) then Moved(m.(state := 22, attributes := []))
      else if c == GT then StartElement(m, [])
      else if c == SLASH then Moved(m.(state := 29, attributes := []))
      else if IsNameChar(c) && |m.element| + 1 < NAME_MAX + 1 then Moved(m.(element := m.element + [c]))
      else Refused
    case 22 =>
      if IsNameStart(c) then Moved(m.(state := 23, attributeName := [c]))
      else if c == GT then StartElement(m, m.attributes)
      else if c == SLASH then To(m, 29)
      else Skip(m, c)
    case 23 =>
      if IsWhite(c) then To(m, 24)
      else if c == EQ then To(m, 25)
      else if IsNameChar(c) && |m.attributeName| + 1 < NAME_MAX + 1 then
        Moved(m.(attributeName := m.attributeName + [c]))
      else Refused
    case 24 => if c == EQ then To(m, 25) else Skip(m, c)
    case 25 =>
      if c == DOUBLE_QUOTE || c == SINGLE_QUOTE then Moved(m.(state := 26, quotes := c)) else Skip(m, c)
    case 26 =>
      if c == m.quotes then
        Moved(m.(state := 28, attributes := m.attributes + [Attribute(m.attributeName, [])]))
      else if IsChar(c) then Moved(m.(state := 27, text := [c]))
      else Refused
    case 27 =>
      if c == m.quotes then
        Moved(m.(state := 28, attributes := m.attributes + [Attribute(m.attributeName, m.text)]))
      else if IsChar(c) && |m.text| + 1 <= TEXT_SIZE then Moved(m.(text := m.text + [c]))
      else Refused
    case 28 =>
      if IsWhite(c) then To(m, 22)
      else if c == SLASH then To(m, 29)
      else if c == GT then StartElement(m, m.attributes)
      else Refused
    case 29 =>
      if c == GT then
        Called(if m.depth > 0 then m.(state := 30, text := [], lastChar := 0) else m.(state := 45),
               OnEmptyElement(m.element, m.attributes))
      else Refused
    case _ => Refused
  }

  /** Adds bytes of a CDATA section, as they are. */
  function CollectData(m: Machine, need: nat, added: bytes): Move {
    if |m.text| + need > TEXT_SIZE then Called(m.(state := 39, text := added), OnCharacterData(m.text))
    else Moved(m.(state := 39, text := m.text + added))
  }

  /** States 30 to 41: character data and CDATA sections. */
  function StepData(m: Machine, c: byte): Move {
    match m.state
    case 30 =>
      if c == LT then if m.text != [] then Called(m.(state := 31), OnCharacterData(m.text)) else To(m, 31)
      else if IsWhite(c) then Moved(m.(lastChar := c))
      else WithLast(Collect(m, 2, [c], t => OnCharacterData(t)), c, 30)
    case 31 =>
      if IsNameStart(c) then Moved(m.(state := 21, element := [c]))
      else if c == BANG then To(m, 32)
      else if c == QUESTION then Moved(m.(state := 19, text := [], lastChar := 0))
      else if c == SLASH then To(m, 42)
      else Refused
    case 32 => if c == LBRACKET then To(m, 33) else if c == MINUS then To(m, 3) else Refused
    case 33 => Expect(m, c, 0x43, 0x63, 34)
    case 34 => Expect(m, c, 0x44, 0x64, 35)
    case 35 => Expect(m, c, 0x41, 0x61, 36)
    case 36 => Expect(m, c, 0x54, 0x74, 37)
    case 37 => Expect(m, c, 0x41, 0x61, 38)
    case 38 =>
      if c == LBRACKET then
        Moved(m.(state := 39, text := if IsWhite(m.lastChar) && m.text != [] then [SPACE] else []))
      else Refused
    case 39 => if c == RBRACKET then To(m, 40) else if IsChar(c) then CollectData(m, 1, [c]) else Refused
    case 40 =>
      if c == RBRACKET then To(m, 41) else if IsChar(c) then CollectData(m, 2, [RBRACKET, c]) else Refused
    case 41 =>
      if c == GT then Moved(m.(state := 30, lastChar := 0))
      else if c == RBRACKET then
        match CollectData(m, 1, [RBRACKET])
        case Called(n, callback) => Called(n.(state := 41), callback)
        case Moved(n) => To(n, 41)
        case Refused => Refused
      else if IsChar(c) then CollectData(m, 3, [RBRACKET, RBRACKET, c])
      else Refused
    case _ => Refused
  }

  function EndElement(m: Machine): Move
    requires m.depth > 0
  {
    Called(if m.depth > 1 then m.(state := 30, depth := m.depth - 1, text := [], lastChar := 0)
           else m.(state := 45, depth := 0),
           OnElementEnd(m.element))
  }

  /** States 42 to 47: end tags and what may follow the root element. */
  function StepEnd(m: Machine, c: byte): Move
    requires m.depth > 0 || m.state >= 45
  {
    match m.state
    case 42 => if IsNameStart(c) then Moved(m.(state := 43, element := [c])) else Refused
    case 43 =>
      if c == GT then EndElement(m)
      else if IsNameChar(c) then
        if |m.element| + 1 >= NAME_MAX + 1 then Refused else Moved(m.(element := m.element + [c]))
      else if IsWhite(c) then To(m, 44)
      else Refused
    case 44 => if c == GT then EndElement(m) else Skip(m, c)
    case 45 => if c == LT then To(m, 46) else Skip(m, c)
    case 46 =>
      if c == BANG then To(m, 47)
      else if c == QUESTION then Moved(m.(state := 19, text := [], lastChar := 0))
      else Refused
    case 47 => if c == MINUS then To(m, 3) else Refused
    case _ => Refused
  }
}

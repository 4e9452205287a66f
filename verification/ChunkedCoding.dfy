/** The chunked coding as a grammar: decoding undoes encoding, and accepts nothing else. */
module ChunkedCoding {
  import opened Bytes
  import opened ChunkedParser
  import opened Sequences

  datatype Chunk = Chunk(size: bytes, extension: bytes, data: bytes)

  /** A message: chunks with data, the last chunk, whose size is zero, and trailer lines. */
  datatype Message = Message(chunks: seq<Chunk>, last: bytes, extension: bytes, trailers: seq<bytes>)

  predicate IsHex(text: bytes) {
    text != [] && forall i :: 0 <= i < |text| ==> HexValue(text[i]) >= 0
  }

  /** The number that hexadecimal digits stand for, however many there are. */
  function Value(text: bytes): nat
    requires forall i :: 0 <= i < |text| ==> HexValue(text[i]) >= 0
  {
    if text == [] then 0 else 16 * Value(text[..|text| - 1]) + HexValue(text[|text| - 1])
  }

  /** What the decoder makes of more digits behind `n`, in a `size_t` that wraps around at each of them. */
  function HexNumber(n: nat, text: bytes): (r: nat)
    requires n < SIZE_T && forall i :: 0 <= i < |text| ==> HexValue(text[i]) >= 0
    ensures r < SIZE_T
    decreases |text|
  {
    if text == [] then n else HexNumber((n * 16 + HexValue(text[0])) % SIZE_T, text[1..])
  }

  /** Printable characters, bytes above them and tabs. */
  predicate IsLine(text: bytes) {
    forall i :: 0 <= i < |text| ==> text[i] >= 0x20 || text[i] == 0x09
  }

  /** Nothing, or something set off by a blank or a semicolon. */
  predicate IsExtension(text: bytes) {
    text == [] || (text[0] as char in " \t;" && IsLine(text))
  }

  predicate LegalChunk(c: Chunk) {
    IsHex(c.size) && Value(c.size) % SIZE_T == |c.data| > 0 && IsExtension(c.extension)
  }

  predicate LegalChunks(chunks: seq<Chunk>) {
    chunks == [] || (LegalChunk(chunks[0]) && LegalChunks(chunks[1..]))
  }

  predicate LegalTrailers(trailers: seq<bytes>) {
    trailers == [] || (trailers[0] != [] && IsLine(trailers[0]) && LegalTrailers(trailers[1..]))
  }

  /** What the decoder accepts: every size tells the length of its data modulo 2^64. */
  predicate Legal(m: Message) {
    && LegalChunks(m.chunks) && LegalTrailers(m.trailers)
    && IsHex(m.last) && Value(m.last) % SIZE_T == 0 && IsExtension(m.extension)
  }

  /** A message whose sizes are true, as the standard has it. */
  predicate Standard(m: Message) {
    && Legal(m) && Value(m.last) == 0
    && forall i :: 0 <= i < |m.chunks| ==> IsHex(m.chunks[i].size) && Value(m.chunks[i].size) == |m.chunks[i].data|
  }

  /** All sizes fit a `size_t`. */
  predicate Small(m: Message) {
    && IsHex(m.last) && Value(m.last) < SIZE_T
    && forall i :: 0 <= i < |m.chunks| ==> IsHex(m.chunks[i].size) && Value(m.chunks[i].size) < SIZE_T
  }

  const CRLF: bytes := [CR, LF]

  function EncodeChunk(c: Chunk): bytes {
    c.size + c.extension + CRLF + c.data + CRLF
  }

  function EncodeChunks(chunks: seq<Chunk>): bytes {
    if chunks == [] then [] else EncodeChunk(chunks[0]) + EncodeChunks(chunks[1..])
  }

  function EncodeTrailers(trailers: seq<bytes>): bytes {
    if trailers == [] then [] else trailers[0] + CRLF + EncodeTrailers(trailers[1..])
  }

  function Encode(m: Message): bytes {
    EncodeChunks(m.chunks) + (m.last + m.extension + CRLF) + EncodeTrailers(m.trailers) + CRLF
  }

  function Body(chunks: seq<Chunk>): bytes {
    if chunks == [] then [] else chunks[0].data + Body(chunks[1..])
  }

  lemma {:induction false} NumberSnoc(n: nat, text: bytes, digit: byte)
    requires n < SIZE_T && HexValue(digit) >= 0 && forall i :: 0 <= i < |text| ==> HexValue(text[i]) >= 0
    ensures HexNumber(n, text + [digit]) == (HexNumber(n, text) * 16 + HexValue(digit)) % SIZE_T
    decreases |text|
  {
    hide HexValue;
    if text == [] {
      assert ([] + [digit])[1..] == [];
    } else {
      assert (text + [digit])[1..] == text[1..] + [digit];
      NumberSnoc((n * 16 + HexValue(text[0])) % SIZE_T, text[1..], digit);
    }
  }

  /** Reducing at every digit is reducing once: the size is that of the digits modulo 2^64, true exactly below it. */
  lemma {:induction false} NumberIsValue(text: bytes)
    requires forall i :: 0 <= i < |text| ==> HexValue(text[i]) >= 0
    ensures HexNumber(0, text) == Value(text) % SIZE_T
    ensures HexNumber(0, text) == Value(text) <==> Value(text) < SIZE_T
  {
    hide HexValue, HexNumber;
    if text == [] {
      NoDigits();
    } else {
      var n := |text| - 1;
      assert text == text[..n] + [text[n]];
      NumberIsValue(text[..n]);
      NumberSnoc(0, text[..n], text[n]);
      ReduceOnce(Value(text[..n]), HexValue(text[n]));
    }
  }

  lemma NoDigits()
    ensures HexNumber(0, []) == 0
  {
  }

  lemma ReduceOnce(v: nat, digit: nat)
    ensures ((v % SIZE_T) * 16 + digit) % SIZE_T == (16 * v + digit) % SIZE_T
  {
    var q, r := v / SIZE_T, v % SIZE_T;
    assert 16 * v + digit == (r * 16 + digit) + 16 * q * SIZE_T;
    Multiples(r * 16 + digit, 16 * q);
  }

  lemma Multiples(n: nat, k: nat)
    ensures (n + k * SIZE_T) % SIZE_T == n % SIZE_T
  {
    assert n + k * SIZE_T == (n / SIZE_T + k) * SIZE_T + n % SIZE_T;
  }

  lemma {:induction false} ChunkAt(chunks: seq<Chunk>, i: nat)
    requires LegalChunks(chunks) && i < |chunks|
    ensures LegalChunk(chunks[i])
  {
    if i > 0 {
      ChunkAt(chunks[1..], i - 1);
    }
  }

  /** A number from the values of its hexadecimal digits. */
  function FromDigits(digits: seq<nat>): nat {
    if digits == [] then 0 else 16 * FromDigits(digits[..|digits| - 1]) + digits[|digits| - 1]
  }

  /** The value of a size is that of its digits, in whatever case each of them is written. */
  lemma {:induction false} ValueIs(text: bytes, digits: seq<nat>)
    requires |text| == |digits| && forall i :: 0 <= i < |text| ==> IsHexDigit(text[i], digits[i])
    ensures forall i :: 0 <= i < |text| ==> HexValue(text[i]) >= 0
    ensures Value(text) == FromDigits(digits)
  {
    hide HexValue, IsHexDigit;
    forall i | 0 <= i < |text|
      ensures HexValue(text[i]) == digits[i]
    {
      HexValueIs(text[i], digits[i]);
    }
    if text != [] {
      ValueIs(text[..|text| - 1], digits[..|text| - 1]);
    }
  }

  /** Without sizes beyond 64 bits, what the decoder accepts is what the standard says. */
  lemma SmallIsStandard(m: Message)
    requires Legal(m) && Small(m)
    ensures Standard(m)
  {
    hide IsExtension, Value, HexValue;
    forall i | 0 <= i < |m.chunks|
      ensures IsHex(m.chunks[i].size) && Value(m.chunks[i].size) == |m.chunks[i].data|
    {
      ChunkAt(m.chunks, i);
    }
  }

  lemma RunFirst(m: Machine, c: byte, rest: bytes)
    ensures Step(m, c).Wrong? ==> Run(m, [c] + rest) == Invalid([])
    ensures Step(m, c).Last? ==> Run(m, [c] + rest) == Complete([], 1)
    ensures Step(m, c).On? ==> Run(m, [c] + rest) == Later(Step(m, c).data, 1, Run(Step(m, c).machine, rest))
  {
    assert ([c] + rest)[1..] == rest;
  }

  /** Reading more digits. */
  lemma {:induction false} DigitsRun(n: nat, text: bytes)
    requires n < SIZE_T && forall i :: 0 <= i < |text| ==> HexValue(text[i]) >= 0
    ensures Run(Machine(1, n), text) == Unfinished(Machine(1, HexNumber(n, text)), [])
    decreases |text|
  {
    if text != [] {
      DigitsRun((n * 16 + HexValue(text[0])) % SIZE_T, text[1..]);
    }
  }

  lemma SizeRun(text: bytes)
    requires IsHex(text)
    ensures Run(Initial(), text) == Unfinished(Machine(1, HexNumber(0, text)), [])
  {
    var n := HexValue(text[0]);
    assert Step(Initial(), text[0]) == On(Machine(1, n), []) && (0 * 16 + n) % SIZE_T == n;
    DigitsRun(n, text[1..]);
    RunFirst(Initial(), text[0], text[1..]);
    hide Run, Step, HexValue, HexNumber;
    assert text == [text[0]] + text[1..];
    MoreDigits(0, text[0], text[1..]);
  }

  /** Reading more of a line that is skipped: an extension or a trailer. */
  lemma {:induction false} LineRun(m: Machine, text: bytes)
    requires m.state in {2, 8} && IsLine(text)
    ensures Run(m, text) == Unfinished(m, [])
    decreases |text|
  {
    if text != [] {
      LineRun(m, text[1..]);
    }
  }

  ghost predicate Goes(m: Machine, input: bytes, data: bytes, n: Machine) {
    Run(m, input) == Unfinished(n, data)
  }

  lemma GoesOn(m: Machine, a: bytes, x: bytes, n: Machine, b: bytes, y: bytes, k: Machine)
    requires Goes(m, a, x, n) && Goes(n, b, y, k)
    ensures Goes(m, a + b, x + y, k)
  {
    hide Run;
    RunJoins(m, a, b);
  }

  lemma LineEnds(m: Machine, a: Machine, b: Machine)
    requires Step(m, CR) == On(a, []) && Step(a, LF) == On(b, [])
    ensures Run(m, CRLF) == Unfinished(b, [])
  {
    hide Step;
    assert CRLF[1..] == [LF];
    RunByte(a, LF);
  }

  /** The size line of a chunk. */
  lemma SizeLine(size: bytes, extension: bytes)
    requires IsHex(size) && IsExtension(extension)
    ensures var n := Value(size) % SIZE_T;
            Goes(Initial(), size + extension + CRLF, [], Machine(if n > 0 then 4 else 7, n))
  {
    SizeRun(size);
    NumberIsValue(size);
    hide Value;
    var n := HexNumber(0, size);
    var a, b := Machine(1, n), if extension == [] then Machine(1, n) else Machine(2, n);
    var end := Machine(if n > 0 then 4 else 7, n);
    ExtensionRun(n, extension);
    LineEnds(b, Machine(3, n), end);
    hide Run, Step, IsHex, IsExtension, HexNumber;
    GoesOn(Initial(), size, [], a, extension, [], b);
    GoesOn(Initial(), size + extension, [] + [], b, CRLF, [], end);
  }

  lemma ExtensionRun(n: nat, text: bytes)
    requires IsExtension(text)
    ensures Goes(Machine(1, n), text, [], if text == [] then Machine(1, n) else Machine(2, n))
  {
    if text != [] {
      LineRun(Machine(2, n), text[1..]);
      RunFirst(Machine(1, n), text[0], text[1..]);
      assert [text[0]] + text[1..] == text;
    }
  }

  /** A chunk: its data goes through, and the next size is expected. */
  lemma ChunkRun(c: Chunk)
    requires LegalChunk(c)
    ensures Goes(Initial(), EncodeChunk(c), c.data, Initial())
  {
    var n := |c.data|;
    var line := c.size + c.extension + CRLF;
    SizeLine(c.size, c.extension);
    BlockRun(n, c.data);
    hide Value, IsHex, IsExtension, Run;
    LineEnds(Machine(5, 0), Machine(6, 0), Initial());
    assert Goes(Machine(4, n), c.data, c.data, Machine(5, 0)) && Goes(Machine(5, 0), CRLF, [], Initial());
    hide Goes, Step;
    GoesOn(Initial(), line, [], Machine(4, n), c.data, c.data, Machine(5, 0));
    GoesOn(Initial(), line + c.data, [] + c.data, Machine(5, 0), CRLF, [], Initial());
    assert [] + c.data + [] == c.data;
  }

  lemma {:induction false} ChunksRun(chunks: seq<Chunk>)
    requires LegalChunks(chunks)
    ensures Goes(Initial(), EncodeChunks(chunks), Body(chunks), Initial())
  {
    if chunks != [] {
      hide Goes, LegalChunk;
      ChunkRun(chunks[0]);
      ChunksRun(chunks[1..]);
      GoesOn(Initial(), EncodeChunk(chunks[0]), chunks[0].data, Initial(), EncodeChunks(chunks[1..]),
             Body(chunks[1..]), Initial());
    }
  }

  /** The size of the last chunk is zero, which is what the machine keeps while it reads trailers. */
  const TRAILER := Machine(7, 0)

  lemma TrailerRun(text: bytes)
    requires text != [] && IsLine(text)
    ensures Goes(TRAILER, text + CRLF, [], TRAILER)
  {
    LineRun(Machine(8, 0), text[1..]);
    RunFirst(TRAILER, text[0], text[1..]);
    assert [text[0]] + text[1..] == text;
    LineEnds(Machine(8, 0), Machine(9, 0), TRAILER);
    hide Run, Step;
    GoesOn(TRAILER, text, [], Machine(8, 0), CRLF, [], TRAILER);
  }

  lemma {:induction false} TrailersRun(trailers: seq<bytes>)
    requires LegalTrailers(trailers)
    ensures Goes(TRAILER, EncodeTrailers(trailers), [], TRAILER)
  {
    if trailers != [] {
      hide Goes, IsLine;
      TrailerRun(trailers[0]);
      TrailersRun(trailers[1..]);
      GoesOn(TRAILER, trailers[0] + CRLF, [], TRAILER, EncodeTrailers(trailers[1..]), [], TRAILER);
    }
  }

  lemma EndRun(rest: bytes)
    ensures Run(TRAILER, CRLF + rest) == Complete([], 2)
  {
    RunFirst(TRAILER, CR, [LF] + rest);
    RunFirst(Machine(10, 0), LF, rest);
    assert [CR] + ([LF] + rest) == CRLF + rest;
  }

  lemma BeforeEnd(m: Message)
    requires Legal(m)
    ensures Run(Initial(), EncodeChunks(m.chunks) + (m.last + m.extension + CRLF) + EncodeTrailers(m.trailers))
            == Unfinished(TRAILER, Body(m.chunks))
  {
    var line := m.last + m.extension + CRLF;
    ChunksRun(m.chunks);
    SizeLine(m.last, m.extension);
    TrailersRun(m.trailers);
    hide Run, Step, Value, IsHex, IsExtension, LegalChunks, LegalTrailers;
    var a, b := EncodeChunks(m.chunks), EncodeTrailers(m.trailers);
    GoesOn(Initial(), a, Body(m.chunks), Initial(), line, [], TRAILER);
    GoesOn(Initial(), a + line, Body(m.chunks) + [], TRAILER, b, [], TRAILER);
    assert Body(m.chunks) + [] + [] == Body(m.chunks);
  }

  /** Decoding an encoded message gives its body, and ends right behind it, whatever follows. */
  lemma DecodeEncode(m: Message, rest: bytes)
    requires Legal(m)
    ensures Run(Initial(), Encode(m) + rest) == Complete(Body(m.chunks), |Encode(m)|)
  {
    hide Run, Step, Legal, EncodeChunks, EncodeTrailers, Body;
    BeforeEnd(m);
    EndRun(rest);
    var text := EncodeChunks(m.chunks) + (m.last + m.extension + CRLF) + EncodeTrailers(m.trailers);
    RunJoins(Initial(), text, CRLF + rest);
    assert text + CRLF + rest == text + (CRLF + rest);
  }

  /** If a run comes to the end of a message, so does what is left of it after each byte. */
  lemma FirstStep(m: Machine, input: bytes)
    requires Run(m, input).Complete?
    ensures input != [] && !Step(m, input[0]).Wrong?
    ensures Step(m, input[0]).On? ==> Run(Step(m, input[0]).machine, input[1..]).Complete?
  {
  }

  /** The line feed of a line's end. */
  lemma ReadLF(m: Machine, n: Machine, input: bytes)
    requires Run(m, input).Complete? && m.state in {3, 6, 9}
    ensures input != [] && input[0] == LF && Run(Step(m, LF).machine, input[1..]).Complete?
  {
    FirstStep(m, input);
  }

  lemma ConsLine(c: byte, text: bytes, rest: bytes)
    ensures [c] + (text + CRLF + rest) == [c] + text + CRLF + rest
  {
  }

  lemma ConsSize(c: byte, size: bytes, extension: bytes, rest: bytes)
    ensures [c] + (size + extension + CRLF + rest) == [c] + size + extension + CRLF + rest
  {
    ConsLine(c, size + extension, rest);
    assert [c] + (size + extension) == [c] + size + extension;
  }

  lemma SplitFirst(input: bytes)
    requires input != []
    ensures input == [input[0]] + input[1..]
    ensures |input| > 1 && input[0] == CR && input[1] == LF ==> input == [] + CRLF + input[2..] && input[1..][1..] == input[2..]
  {
  }

  /** Reads the rest of a line: an extension in state 2 or a trailer in state 8. */
  lemma {:induction false} ReadLine(m: Machine, input: bytes) returns (text: bytes, rest: bytes)
    requires Run(m, input).Complete? && m.state in {2, 8}
    ensures input == text + CRLF + rest && IsLine(text)
    ensures Run(if m.state == 8 then Machine(7, m.size) else Machine(if m.size > 0 then 4 else 7, m.size), rest).Complete?
    decreases |input|
  {
    hide Run, CRLF;
    FirstStep(m, input);
    SplitFirst(input);
    if input[0] == CR {
      ReadLF(m.(state := m.state + 1), m, input[1..]);
      text, rest := [], input[2..];
    } else {
      text, rest := ReadLine(m, input[1..]);
      ConsLine(input[0], text, rest);
      text := [input[0]] + text;
    }
  }

  lemma MoreDigits(n: nat, c: byte, digits: bytes)
    requires n < SIZE_T && HexValue(c) >= 0 && forall i :: 0 <= i < |digits| ==> HexValue(digits[i]) >= 0
    ensures forall i :: 0 <= i < |[c] + digits| ==> HexValue(([c] + digits)[i]) >= 0
    ensures HexNumber(n, [c] + digits) == HexNumber((n * 16 + HexValue(c)) % SIZE_T, digits)
  {
    assert ([c] + digits)[1..] == digits;
  }

  /** Reads more digits and the rest of a size line. */
  lemma {:induction false} ReadSize(n: nat, input: bytes) returns (digits: bytes, extension: bytes, rest: bytes)
    requires n < SIZE_T && Run(Machine(1, n), input).Complete?
    ensures input == digits + extension + CRLF + rest && IsExtension(extension)
    ensures forall i :: 0 <= i < |digits| ==> HexValue(digits[i]) >= 0
    ensures var size := HexNumber(n, digits); Run(Machine(if size > 0 then 4 else 7, size), rest).Complete?
    decreases |input|
  {
    hide Run, HexValue, CRLF;
    FirstStep(Machine(1, n), input);
    SplitFirst(input);
    digits, extension := [], [];
    assert HexNumber(n, []) == n;
    if HexValue(input[0]) >= 0 {
      digits, extension, rest := ReadSize((n * 16 + HexValue(input[0])) % SIZE_T, input[1..]);
      MoreDigits(n, input[0], digits);
      ConsSize(input[0], digits, extension, rest);
      digits := [input[0]] + digits;
    } else if input[0] == CR {
      ReadLF(Machine(3, n), Machine(3, n), input[1..]);
      rest := input[2..];
      assert digits + extension == [];
    } else {
      extension, rest := ReadLine(Machine(2, n), input[1..]);
      ConsLine(input[0], extension, rest);
      extension := [input[0]] + extension;
      assert [] + extension == extension;
    }
  }

  /** Reads a size line from its first digit. */
  lemma ReadSizeLine(input: bytes) returns (size: bytes, extension: bytes, rest: bytes)
    requires Run(Initial(), input).Complete?
    ensures input == size + extension + CRLF + rest && IsHex(size) && IsExtension(extension)
    ensures var n := Value(size) % SIZE_T; Run(Machine(if n > 0 then 4 else 7, n), rest).Complete?
  {
    hide Run, IsExtension, HexNumber, HexValue, CRLF, Value;
    FirstStep(Initial(), input);
    SplitFirst(input);
    size, extension, rest := ReadSize(HexValue(input[0]), input[1..]);
    MoreDigits(0, input[0], size);
    ConsSize(input[0], size, extension, rest);
    size := [input[0]] + size;
    NumberIsValue(size);
  }

  /** There are as many bytes of data as the size says. */
  lemma EnoughData(n: nat, input: bytes)
    requires n > 0 && Run(Machine(4, n), input).Complete?
    ensures |input| > n && Run(Machine(5, 0), input[n..]).Complete?
  {
    if |input| <= n {
      if input != [] {
        BlockRun(n, input);
      }
    } else {
      BlockRun(n, input[..n]);
      hide Run;
      RunJoins(Machine(4, n), input[..n], input[n..]);
      assert input[..n] + input[n..] == input;
    }
  }

  /** Reads the data of a chunk and its line end. */
  lemma ReadData(n: nat, input: bytes) returns (data: bytes, rest: bytes)
    requires n > 0 && Run(Machine(4, n), input).Complete?
    ensures |data| == n && input == data + CRLF + rest && Run(Initial(), rest).Complete?
  {
    hide Run;
    EnoughData(n, input);
    var end := input[n..];
    FirstStep(Machine(5, 0), end);
    ReadLF(Machine(6, 0), Machine(6, 0), end[1..]);
    SplitFirst(end);
    data, rest := input[..n], end[2..];
    assert input == data + end && data + ([] + CRLF + rest) == data + CRLF + rest;
  }

  lemma ReadEmptyLine(input: bytes)
    requires Run(TRAILER, input).Complete? && input != [] && input[0] == CR
    ensures |input| > 1 && input == [] + CRLF + input[2..]
  {
    hide Run, CRLF;
    FirstStep(TRAILER, input);
    FirstStep(Machine(10, 0), input[1..]);
    SplitFirst(input);
  }

  lemma PrependTrailer(line: bytes, trailers: seq<bytes>, rest: bytes)
    requires line != [] && IsLine(line) && LegalTrailers(trailers)
    ensures LegalTrailers([line] + trailers)
    ensures EncodeTrailers([line] + trailers) + CRLF + rest == line + CRLF + (EncodeTrailers(trailers) + CRLF + rest)
  {
    assert ([line] + trailers)[1..] == trailers;
    assert EncodeTrailers([line] + trailers) == line + CRLF + EncodeTrailers(trailers);
    hide EncodeTrailers, CRLF;
    var t := EncodeTrailers(trailers);
    assert line + CRLF + t + CRLF + rest == line + CRLF + (t + CRLF + rest);
  }

  /** Reads the trailers and the empty line that ends the message. */
  lemma {:induction false} ReadTrailers(input: bytes) returns (trailers: seq<bytes>, rest: bytes)
    requires Run(TRAILER, input).Complete?
    ensures input == EncodeTrailers(trailers) + CRLF + rest && LegalTrailers(trailers)
    decreases |input|
  {
    hide Run, CRLF;
    FirstStep(TRAILER, input);
    if input[0] == CR {
      ReadEmptyLine(input);
      trailers, rest := [], input[2..];
    } else {
      SplitFirst(input);
      var text, later := ReadLine(Machine(8, 0), input[1..]);
      ConsLine(input[0], text, later);
      trailers, rest := ReadTrailers(later);
      hide EncodeTrailers, LegalTrailers;
      PrependTrailer([input[0]] + text, trailers, rest);
      trailers := [[input[0]] + text] + trailers;
    }
  }

  lemma LastChunkOnly(last: bytes, extension: bytes, trailers: seq<bytes>, rest: bytes)
    requires IsHex(last) && Value(last) % SIZE_T == 0 && IsExtension(extension) && LegalTrailers(trailers)
    ensures Legal(Message([], last, extension, trailers))
    ensures last + extension + CRLF + (EncodeTrailers(trailers) + CRLF + rest)
            == Encode(Message([], last, extension, trailers)) + rest
  {
    assert EncodeChunks([]) == [];
    hide EncodeChunks, EncodeTrailers, CRLF, IsHex, IsExtension, Value;
    var line, t := last + extension + CRLF, EncodeTrailers(trailers);
    assert [] + line == line;
    assert line + (t + CRLF + rest) == line + t + CRLF + rest;
  }

  lemma PrependChunk(c: Chunk, m: Message, rest: bytes)
    requires LegalChunk(c) && Legal(m)
    ensures Legal(m.(chunks := [c] + m.chunks))
    ensures Encode(m.(chunks := [c] + m.chunks)) + rest
            == c.size + c.extension + CRLF + (c.data + CRLF + (Encode(m) + rest))
  {
    assert ([c] + m.chunks)[1..] == m.chunks;
    assert EncodeChunks([c] + m.chunks) == EncodeChunk(c) + EncodeChunks(m.chunks);
    hide EncodeChunks, EncodeTrailers, CRLF, LegalChunk, LegalTrailers, IsHex, IsExtension, Value;
    Rebracket(c.size + c.extension + CRLF, c.data + CRLF, EncodeChunks(m.chunks), m.last + m.extension + CRLF,
              EncodeTrailers(m.trailers), CRLF, rest);
    Associative(c.size + c.extension + CRLF, c.data, CRLF);
  }

  lemma Rebracket(a: bytes, b: bytes, c: bytes, d: bytes, e: bytes, f: bytes, g: bytes)
    ensures a + b + c + d + e + f + g == a + (b + (c + d + e + f + g))
  {
    Associative(a, b, c + d + e + f + g);
    Associative(a + b, c, d + e + f + g);
    assert a + b + c + d + e + f + g == a + b + c + (d + e + f + g);
    assert c + d + e + f + g == c + (d + e + f + g);
  }

  /** Whatever input the decoder takes to its end begins with a legal message, which is all it used. */
  lemma {:induction false} ReadMessage(input: bytes) returns (m: Message, rest: bytes)
    requires Run(Initial(), input).Complete?
    ensures Legal(m) && input == Encode(m) + rest
    decreases |input|
  {
    hide Run, CRLF, Encode, Legal, IsExtension, Value, LegalTrailers;
    var size, extension, later := ReadSizeLine(input);
    var n := Value(size) % SIZE_T;
    if n == 0 {
      var trailers;
      trailers, rest := ReadTrailers(later);
      m := Message([], size, extension, trailers);
      LastChunkOnly(size, extension, trailers, rest);
    } else {
      var data, others := ReadData(n, later);
      assert |others| < |input|;
      m, rest := ReadMessage(others);
      PrependChunk(Chunk(size, extension, data), m, rest);
      m := m.(chunks := [Chunk(size, extension, data)] + m.chunks);
    }
  }

  /**
   * The decoder comes to the end of a message exactly on the inputs that begin with a legal one, hands over
   * its body and stops right behind it.
   */
  lemma DecodesExactly(input: bytes)
    ensures Run(Initial(), input).Complete? <==> exists m, rest :: Legal(m) && input == Encode(m) + rest
    ensures forall m, rest :: Legal(m) && input == Encode(m) + rest ==>
                                Run(Initial(), input) == Complete(Body(m.chunks), |Encode(m)|)
  {
    hide Run, Legal, Encode, Body;
    if Run(Initial(), input).Complete? {
      var m, rest := ReadMessage(input);
    }
    forall m, rest | Legal(m) && input == Encode(m) + rest
      ensures Run(Initial(), input) == Complete(Body(m.chunks), |Encode(m)|)
    {
      DecodeEncode(m, rest);
    }
  }

  /**
   * So the decoder comes to the end of a message exactly on the inputs that begin with one of the standard, or
   * with one that has a size of more than 64 bits.
   */
  lemma DecodesStandard(input: bytes)
    ensures Run(Initial(), input).Complete?
            <==> exists m, rest :: (Standard(m) || (Legal(m) && !Small(m))) && input == Encode(m) + rest
  {
    hide Run, Legal, Encode, Small;
    DecodesExactly(input);
    if Run(Initial(), input).Complete? {
      var m, rest :| Legal(m) && input == Encode(m) + rest;
      if Small(m) {
        SmallIsStandard(m);
      }
    }
  }

  /** The digits of 2^64 + 5. */
  const LONG_SIZE: bytes := [0x31] + Repeat(0x30, 15) + [0x35]

  lemma LongSizeValue()
    ensures IsHex(LONG_SIZE) && Value(LONG_SIZE) == SIZE_T + 5
  {
    assert IsHex(LONG_SIZE);
    assert LONG_SIZE[..16] == [0x31] + Repeat(0x30, 15);
    ZerosValue(15);
    assert Power16(5) == 0x10_0000;
    assert Power16(10) == 0x10_0000 * Power16(5);
    assert Power16(15) == 0x10_0000 * Power16(10);
  }

  lemma ZeroSize()
    ensures IsHex([0x30]) && Value([0x30]) == 0
  {
    assert [0x30][..0] == [];
  }

  /** For example, the size 10000000000000005 is taken for 5. */
  lemma WrappedSize(data: bytes, rest: bytes)
    requires |data| == 5
    ensures var m := Message([Chunk(LONG_SIZE, [], data)], [0x30], [], []);
            && IsHex(LONG_SIZE) && Value(LONG_SIZE) == SIZE_T + 5
            && Legal(m) && !Standard(m) && Run(Initial(), Encode(m) + rest) == Complete(data, |Encode(m)|)
  {
    hide Value, IsHex, Run, EncodeChunks, EncodeTrailers, LONG_SIZE;
    var m := Message([Chunk(LONG_SIZE, [], data)], [0x30], [], []);
    LongSizeValue();
    ZeroSize();
    assert m.chunks[1..] == [] && Body(m.chunks) == data + Body([]) && data + [] == data;
    assert LegalChunk(m.chunks[0]);
    assert LegalChunks(m.chunks[1..]) && LegalTrailers(m.trailers);
    assert LegalChunks(m.chunks);
    assert Value(m.last) % SIZE_T == 0;
    assert IsExtension(m.extension);
    DecodeEncode(m, rest);
  }

  function Power16(k: nat): nat {
    if k == 0 then 1 else 16 * Power16(k - 1)
  }

  lemma {:induction false} ZerosValue(k: nat)
    ensures Value([0x31] + Repeat(0x30, k)) == Power16(k)
  {
    var text: bytes := [0x31] + Repeat(0x30, k);
    if k > 0 {
      assert text[..k] == [0x31] + Repeat(0x30, k - 1);
      ZerosValue(k - 1);
    } else {
      assert text[..0] == [];
    }
  }
}

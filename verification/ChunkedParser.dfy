/** The chunked transfer coding, section 4.1 of RFC 7230, decoded as the bytes come. */
module ChunkedParser {
  import opened Bytes

  /** States are numbered as in the parser. */
  datatype Machine = Machine(state: nat, size: nat)

  function Initial(): Machine {
    Machine(0, 0)
  }

  /** What one byte does: it is wrong, it moves the machine on, perhaps as data, or it is the last. */
  datatype Move = Wrong | On(machine: Machine, data: bytes) | Last

  /** A byte that a line may contain: anything but control characters other than a tab. */
  predicate InLine(c: byte) {
    c >= SPACE || c == TAB
  }

  /** The coding, a byte at a time; the size wraps around as a `size_t` does. */
  function Step(m: Machine, c: byte): Move {
    match m.state
    case 0 => if HexValue(c) >= 0 then On(Machine(1, HexValue(c)), []) else Wrong
    case 1 =>
      if HexValue(c) >= 0 then On(Machine(1, (m.size * 16 + HexValue(c)) % SIZE_T), [])
      else if c == SPACE || c == TAB || c == SEMICOLON then On(m.(state := 2), [])
      else if c == CR then On(m.(state := 3), [])
      else Wrong
    case 2 => if c == CR then On(m.(state := 3), []) else if InLine(c) then On(m, []) else Wrong
    case 3 => if c == LF then On(m.(state := if m.size > 0 then 4 else 7), []) else Wrong
    case 4 => On(if m.size <= 1 then Machine(5, 0) else Machine(4, m.size - 1), [c])
    case 5 => if c == CR then On(m.(state := 6), []) else Wrong
    case 6 => if c == LF then On(m.(state := 0), []) else Wrong
    case 7 => if c == CR then On(m.(state := 10), []) else if InLine(c) then On(m.(state := 8), []) else Wrong
    case 8 => if c == CR then On(m.(state := 9), []) else if InLine(c) then On(m, []) else Wrong
    case 9 => if c == LF then On(m.(state := 7), []) else Wrong
    case _ => if c == LF then Last else Wrong
  }

  /** What a stretch of input does: `used` counts the bytes up to the end of the message. */
  datatype Outcome = Invalid(body: bytes) | Unfinished(machine: Machine, body: bytes) | Complete(body: bytes, used: nat)

  /** An outcome that comes `n` bytes and some data later. */
  function Later(data: bytes, n: nat, o: Outcome): Outcome {
    match o
    case Invalid(body) => Invalid(data + body)
    case Unfinished(m, body) => Unfinished(m, data + body)
    case Complete(body, used) => Complete(data + body, n + used)
  }

  function Run(m: Machine, input: bytes): (o: Outcome)
    ensures o.Complete? ==> 0 < o.used <= |input|
    decreases |input|
  {
    if input == [] then Unfinished(m, [])
    else
      match Step(m, input[0])
      case Wrong => Invalid([])
      case Last => Complete([], 1)
      case On(n, data) => Later(data, 1, Run(n, input[1..]))
  }

  lemma LaterLater(a: bytes, i: nat, b: bytes, j: nat, o: Outcome)
    ensures Later(a, i, Later(b, j, o)) == Later(a + b, i + j, o)
  {
  }

  /** Where the input is cut makes no difference to the data, the outcome or its place. */
  lemma {:induction false} RunJoins(m: Machine, a: bytes, b: bytes)
    ensures Run(m, a + b) == match Run(m, a)
                             case Unfinished(n, body) => Later(body, |a|, Run(n, b))
                             case o => o
    decreases |a|
  {
    hide Step;
    if a == [] {
      assert a + b == b;
      Nothing(Run(m, b));
    } else {
      assert (a + b)[1..] == a[1..] + b;
      var move := Step(m, a[0]);
      if move.On? {
        RunJoins(move.machine, a[1..], b);
        var rest := Run(move.machine, a[1..]);
        if rest.Unfinished? {
          LaterLater(move.data, 1, rest.body, |a| - 1, Run(rest.machine, b));
        }
      }
    }
  }

  lemma Nothing(o: Outcome)
    ensures Later([], 0, o) == o
  {
  }

  /** A block of chunk data, not more than the chunk has left. */
  lemma {:induction false} BlockRun(size: nat, block: bytes)
    requires 0 < |block| <= size
    ensures Run(Machine(4, size), block)
            == Unfinished(if |block| == size then Machine(5, 0) else Machine(4, size - |block|), block)
    decreases |block|
  {
    if |block| > 1 {
      BlockRun(size - 1, block[1..]);
      assert [block[0]] + block[1..] == block;
    } else {
      assert block[1..] == [] && [block[0]] + [] == block;
    }
  }

  datatype Result = InvalidChunkedResponse | CallbackFailed | NotEndOfResponse | EndOfResponse

  class Parser {
    var state: nat
    var chunkSize: nat

    /** What has been handed over, and which data the receiver takes. */
    var received: bytes
    const accepts: bytes -> bool

    ghost predicate Valid()
      reads this
    {
      chunkSize < SIZE_T && (state == 4 ==> chunkSize > 0)
    }

    /** The size counts only from its first digit to the end of the data. */
    ghost function Now(): Machine
      reads this
    {
      Machine(state, if 1 <= state <= 4 then chunkSize else 0)
    }

    constructor (accepts: bytes -> bool)
      ensures Valid() && Now() == Initial() && received == [] && this.accepts == accepts
    {
      state, chunkSize, received := 0, 0, [];
      this.accepts := accepts;
    }

    method AddChunkedData(data: bytes) returns (ok: bool)
      modifies this`received
      ensures ok == accepts(data) && received == if ok then old(received) + data else old(received)
    {
      ok := accepts(data);
      if ok {
        received := received + data;
      }
    }

    /** Every state but that of the chunk data; `last` is set by the end of the message. */
    method ReadByte(c: byte) returns (ok: bool, last: bool)
      requires state != 4 && Valid()
      modifies this`state, this`chunkSize
      ensures match Step(old(Now()), c)
              case Wrong => !ok
              case Last => ok && last
              case On(m, data) => ok && !last && Valid() && Now() == m && data == []
    {
      hide HexValue;
      ok, last := true, false;
      match state {
        case 0 =>
          if HexValue(c) >= 0 {
            chunkSize, state := HexValue(c), 1;
          } else {
            ok := false;
          }
        case 1 =>
          if HexValue(c) >= 0 {
            chunkSize := (chunkSize * 16 + HexValue(c)) % SIZE_T;
          } else if c == SPACE || c == TAB || c == SEMICOLON {
            state := 2;
          } else if c == CR {
            state := 3;
          } else {
            ok := false;
          }
        case 2 =>
          if c == CR {
            state := 3;
          } else {
            ok := c >= SPACE || c == TAB;
          }
        case 3 =>
          if c == LF {
            state := if chunkSize > 0 then 4 else 7;
          } else {
            ok := false;
          }
        case 5 =>
          ok := c == CR;
          state := 6;
        case 6 =>
          ok := c == LF;
          state := 0;
        case 7 =>
          if c == CR {
            state := 10;
          } else if c >= SPACE || c == TAB {
            state := 8;
          } else {
            ok := false;
          }
        case 8 =>
          if c == CR {
            state := 9;
          } else {
            ok := c >= SPACE || c == TAB;
          }
        case 9 =>
          ok := c == LF;
          state := 7;
        case _ =>
          ok := c == LF;
          last := ok;
      }
    }

    /** Takes a stretch of input; chunk data is handed over in blocks, everything else is read byte by byte. */
    method ParseChunk(buf: bytes) returns (result: Result, size: nat)
      requires Valid()
      modifies this
      ensures result == CallbackFailed ==> exists i, j :: 0 <= i <= j <= |buf| && !accepts(buf[i..j])
      ensures result != CallbackFailed ==>
                match Run(old(Now()), buf)
                case Invalid(body) => result == InvalidChunkedResponse && received == old(received) + body
                case Unfinished(m, body) =>
                  result == NotEndOfResponse && received == old(received) + body && Valid() && Now() == m
                case Complete(body, used) =>
                  result == EndOfResponse && received == old(received) + body && size == used
    {
      hide Run, HexValue, InLine;
      size := 0;
      var ptr := 0;
      ghost var m0, data := Now(), [];
      RunStart(m0, buf);
      while ptr < |buf|
        invariant ptr <= |buf| && Valid() && received == old(received) + data
        invariant Run(m0, buf[..ptr]) == Unfinished(Now(), data)
      {
        ghost var m := Now();
        if state == 4 {
          var pending := |buf| - ptr;
          var block := if chunkSize <= pending then chunkSize else pending;
          var ok := AddChunkedData(buf[ptr..ptr + block]);
          if !ok {
            return CallbackFailed, 0;
          }
          BlockRun(chunkSize, buf[ptr..ptr + block]);
          RunGoesOn(m0, buf, ptr, ptr + block, m, data);
          data := data + buf[ptr..ptr + block];
          ptr := ptr + block;
          if chunkSize <= pending {
            state := 5;
          } else {
            chunkSize := chunkSize - pending;
          }
        } else {
          RunByte(m, buf[ptr]);
          assert buf[ptr..ptr + 1] == [buf[ptr]];
          RunGoesOn(m0, buf, ptr, ptr + 1, m, data);
          ghost var before := ptr;
          ptr := ptr + 1;
          var ok, last := ReadByte(buf[ptr - 1]);
          if !ok {
            RunEnds(m0, buf, ptr);
            return InvalidChunkedResponse, 0;
          }
          if last {
            RunEnds(m0, buf, ptr);
            return EndOfResponse, ptr;
          }
        }
      }
      assert buf[..ptr] == buf;
      result := NotEndOfResponse;
    }
  }

  lemma RunStart(m: Machine, input: bytes)
    ensures input[..0] == [] && Run(m, []) == Unfinished(m, [])
  {
  }

  lemma RunByte(m: Machine, c: byte)
    ensures Run(m, [c]) == match Step(m, c)
                           case Wrong => Invalid([])
                           case Last => Complete([], 1)
                           case On(n, data) => Unfinished(n, data)
  {
    assert [c][1..] == [];
  }

  lemma RunGoesOn(m: Machine, input: bytes, i: nat, j: nat, n: Machine, data: bytes)
    requires i <= j <= |input| && Run(m, input[..i]) == Unfinished(n, data)
    ensures Run(m, input[..j]) == Later(data, i, Run(n, input[i..j]))
  {
    hide Run;
    RunJoins(m, input[..i], input[i..j]);
    assert input[..i] + input[i..j] == input[..j];
  }

  lemma RunEnds(m: Machine, input: bytes, i: nat)
    requires i <= |input| && !Run(m, input[..i]).Unfinished?
    ensures Run(m, input) == Run(m, input[..i])
  {
    hide Run;
    RunJoins(m, input[..i], input[i..]);
    assert input[..i] + input[i..] == input;
  }
}

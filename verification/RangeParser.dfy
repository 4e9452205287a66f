/** The list of byte ranges in a request, section 2.1 of RFC 7233, read a byte at a time. */
module RangeParser {
  import opened Bytes
  import opened Numbers
  import opened Multipart

  /** The locals of the parser; states are numbered as there. */
  datatype Scan = Scan(state: nat, from: int, to: int, count: int, ranges: seq<Range>)

  datatype Outcome = Refused | Read(scan: Scan)

  /** A range is added unless it ends before it begins. */
  function Added(s: Scan, from: int, to: int): Outcome {
    if to < from || from < 0 then Refused else Read(s.(state := 6, ranges := s.ranges + [Range(from, to)]))
  }

  function AddSuffix(s: Scan, filesize: int): Outcome {
    if s.count == 0 then Refused
    else
      var count := Min(s.count, filesize);
      Added(s.(count := count), filesize - count, filesize - 1)
  }

  /** What one byte does; the arithmetic is that of a signed 64-bit `off_t`. */
  function Step(s: Scan, filesize: int, c: byte): Outcome {
    if s.state == 0 || s.state == 6 then
      if IsDigit(c) then Read(s.(state := 1, from := c - 0x30))
      else if c == MINUS then Read(s.(state := 7))
      else if IsBlank(c) then Read(s)
      else Refused
    else if s.state == 1 then
      if IsDigit(c) then
        var n := Wrap(Wrap(s.from * 10) + (c - 0x30));
        if n < s.from || n >= filesize then Refused else Read(s.(from := n))
      else if c == MINUS then Read(s.(state := 3))
      else if IsBlank(c) then Read(s.(state := 2))
      else Refused
    else if s.state == 2 then
      if c == MINUS then Read(s.(state := 3)) else if IsBlank(c) then Read(s) else Refused
    else if s.state == 3 then
      if IsDigit(c) then Read(s.(state := 4, to := c - 0x30))
      else if c == COMMA then Added(s, s.from, filesize - 1)
      else if IsBlank(c) then Read(s)
      else Refused
    else if s.state == 4 && IsDigit(c) then
      var n := Wrap(Wrap(s.to * 10) + (c - 0x30));
      if n < s.to then Refused else Read(s.(to := n))
    else if s.state == 4 || s.state == 5 then
      if c == COMMA then
        var to := Min(s.to, filesize - 1);
        Added(s.(to := to), s.from, to)
      else if IsBlank(c) then Read(s.(state := 5))
      else Refused
    else if s.state == 7 then
      if IsDigit(c) then Read(s.(state := 8, count := c - 0x30)) else if IsBlank(c) then Read(s) else Refused
    else if s.state == 8 && IsDigit(c) then
      var n := Wrap(Wrap(s.count * 10) + (c - 0x30));
      if n < s.count then Refused else Read(s.(count := n))
    else if c == COMMA then AddSuffix(s, filesize)
    else if IsBlank(c) then Read(s.(state := 9))
    else Refused
  }

  /** What the end of the list does. */
  function Finish(s: Scan, filesize: int): Outcome {
    if s.state == 0 then Read(s)
    else if s.state == 3 then Added(s, s.from, filesize - 1)
    else if s.state == 4 || s.state == 5 then
      var to := Min(s.to, filesize - 1);
      Added(s.(to := to), s.from, to)
    else if s.state == 8 || s.state == 9 then AddSuffix(s, filesize)
    else Refused
  }

  function Run(s: Scan, filesize: int, text: bytes): Outcome
    decreases |text|
  {
    if text == [] then Finish(s, filesize)
    else
      match Step(s, filesize, text[0])
      case Refused => Refused
      case Read(t) => Run(t, filesize, text[1..])
  }

  const INITIAL := Scan(0, 0, 0, 0, [])

  /** A range goes behind the others unless it ends before it begins. */
  method Add(ranges: seq<Range>, from: int, to: int) returns (ok: bool, grown: seq<Range>)
    ensures ok <==> 0 <= from <= to
    ensures grown == if ok then ranges + [Range(from, to)] else ranges
  {
    if to < from || from < 0 {
      return false, ranges;
    }
    return true, ranges + [Range(from, to)];
  }

  /** The last bytes of the file, if there are any to ask for. */
  method AddLast(ranges: seq<Range>, count: int, filesize: int) returns (ok: bool, grown: seq<Range>)
    ensures ok <==> count != 0 && 0 <= filesize - Min(count, filesize) <= filesize - 1
    ensures grown == if ok then ranges + [Range(filesize - Min(count, filesize), filesize - 1)] else ranges
  {
    if count == 0 {
      return false, ranges;
    }
    var n := Min(count, filesize);
    ok, grown := Add(ranges, filesize - n, filesize - 1);
  }

  /** Reads the whole list with the locals of the parser; the ranges kept so far stay when it is refused. */
  method Parse(text: bytes, filesize: int) returns (ok: bool, ranges: seq<Range>)
    requires 0 <= filesize < OFF_T / 2
    ensures ok == Run(INITIAL, filesize, text).Read?
    ensures ok ==> ranges == Run(INITIAL, filesize, text).scan.ranges
    ensures Within(ranges, filesize)
  {
    hide Run, Wrap;
    var state, from, to, count := 0, 0, 0, 0;
    ranges := [];
    assert text[0..] == text;
    for i := 0 to |text|
      invariant Run(INITIAL, filesize, text) == Run(Scan(state, from, to, count, ranges), filesize, text[i..])
      invariant Kept(Scan(state, from, to, count, ranges), filesize) && 0 <= state <= 9
    {
      var c := text[i];
      RunStep(Scan(state, from, to, count, ranges), filesize, text, i);
      StepKeeps(Scan(state, from, to, count, ranges), filesize, c);
      ok := true;
      match state {
        case 0 | 6 =>
          if IsDigit(c) {
            from, state := c - 0x30, 1;
          } else if c == MINUS {
            state := 7;
          } else if !IsBlank(c) {
            return false, ranges;
          }
        case 1 =>
          if IsDigit(c) {
            var n := Wrap(Wrap(from * 10) + (c - 0x30));
            if n < from || n >= filesize {
              return false, ranges;
            }
            from := n;
          } else if c == MINUS {
            state := 3;
          } else if IsBlank(c) {
            state := 2;
          } else {
            return false, ranges;
          }
        case 2 =>
          if c == MINUS {
            state := 3;
          } else if !IsBlank(c) {
            return false, ranges;
          }
        case 3 =>
          if IsDigit(c) {
            to, state := c - 0x30, 4;
          } else if c == COMMA {
            ok, ranges := Add(ranges, from, filesize - 1);
            state := 6;
          } else if !IsBlank(c) {
            return false, ranges;
          }
        case 4 | 5 =>
          if state == 4 && IsDigit(c) {
            var n := Wrap(Wrap(to * 10) + (c - 0x30));
            if n < to {
              return false, ranges;
            }
            to := n;
          } else if c == COMMA {
            to := Min(to, filesize - 1);
            ok, ranges := Add(ranges, from, to);
            state := 6;
          } else if IsBlank(c) {
            state := 5;
          } else {
            return false, ranges;
          }
        case 7 =>
          if IsDigit(c) {
            count, state := c - 0x30, 8;
          } else if !IsBlank(c) {
            return false, ranges;
          }
        case _ =>
          if state == 8 && IsDigit(c) {
            var n := Wrap(Wrap(count * 10) + (c - 0x30));
            if n < count {
              return false, ranges;
            }
            count := n;
          } else if c == COMMA {
            ok, ranges := AddLast(ranges, count, filesize);
            count, state := Min(count, filesize), 6;
          } else if IsBlank(c) {
            state := 9;
          } else {
            return false, ranges;
          }
      }
      if !ok {
        return;
      }
    }
    assert text[|text|..] == [];
    RunEnd(Scan(state, from, to, count, ranges), filesize);
    FinishKeeps(Scan(state, from, to, count, ranges), filesize);
    match state {
      case 0 => ok := true;
      case 3 => ok, ranges := Add(ranges, from, filesize - 1);
      case 4 | 5 => ok, ranges := Add(ranges, from, Min(to, filesize - 1));
      case 8 | 9 => ok, ranges := AddLast(ranges, count, filesize);
      case _ => ok := false;
    }
  }

  lemma RunStep(s: Scan, filesize: int, text: bytes, i: nat)
    requires i < |text|
    ensures Run(s, filesize, text[i..])
            == match Step(s, filesize, text[i])
               case Refused => Refused
               case Read(t) => Run(t, filesize, text[i + 1..])
  {
    assert text[i..][1..] == text[i + 1..];
  }

  lemma RunEnd(s: Scan, filesize: int)
    ensures Run(s, filesize, []) == Finish(s, filesize)
  {
  }

  /** The numbers never become negative, although the arithmetic may wrap, and all ranges lie in the file. */
  predicate Kept(s: Scan, filesize: int) {
    && s.from >= 0 && s.to >= 0 && s.count >= 0
    && filesize >= 0 && Within(s.ranges, filesize)
  }

  lemma AddKeeps(s: Scan, filesize: int, from: int, to: int)
    requires Kept(s, filesize) && to < filesize
    ensures Added(s, from, to).Read? ==> Kept(Added(s, from, to).scan, filesize)
  {
  }

  lemma StepKeeps(s: Scan, filesize: int, c: byte)
    requires Kept(s, filesize)
    ensures Step(s, filesize, c).Read? ==> Kept(Step(s, filesize, c).scan, filesize)
  {
    hide Wrap;
    AddKeeps(s, filesize, s.from, filesize - 1);
  }

  lemma FinishKeeps(s: Scan, filesize: int)
    requires Kept(s, filesize)
    ensures Finish(s, filesize).Read? ==> Kept(Finish(s, filesize).scan, filesize)
  {
  }
}

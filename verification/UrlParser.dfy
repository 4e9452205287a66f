/**
 The in-place path normaliser. It reads the request buffer and writes the
 normalised text into the same bytes, behind the place where it reads.
 */
module UrlParser {
  import opened Bytes
  import opened UrlPath

  datatype Code = PARSE_ERROR | FORBIDDEN | SUCCESS

  /** How far the walk has come, in terms of `UrlPath`. */
  datatype Progress =
    | InPath(stack: Segments, current: bytes)
    | InQuery(path: bytes, query: bytes)
    | InFragment(path: bytes, query: bytes, fragment: bytes)
  {
    ghost function State(): nat {
      match this
      case InPath(_, current) => if IsDots(current) then |current| else 3
      case InQuery(_, _) => 4
      case InFragment(_, _, _) => 5
    }

    /** Bytes that must separate the reader from the writer. */
    ghost function Gap(): nat {
      if State() < 3 then State() + 1 else 0
    }

    /** What has been written: dots and slashes that may still vanish are held back. */
    ghost function Written(): bytes {
      match this
      case InPath(stack, current) => if IsDots(current) then Join(stack) else Join(stack + [current])
      case InQuery(path, query) => path + query
      case InFragment(path, query, fragment) => path + query + fragment
    }

    ghost predicate Valid() {
      match this
      case InPath(stack, current) =>
        SLASH !in current && forall k :: 0 <= k < |stack| ==> SLASH !in stack[k]
      case InQuery(path, query) =>
        query != [] && PathFits(path) && Printable(query) && HASH !in query
      case InFragment(path, query, fragment) =>
        PathFits(path) && Printable(query) && HASH !in query && U16(|query|) <= QUERY_MAX_LEN &&
        fragment != [] && fragment[0] == HASH && Printable(fragment)
    }

    /** The outcome of the whole path if `rest` is still to be read. */
    ghost function Expect(rest: bytes): Outcome {
      match this
      case InPath(stack, current) => Resume(stack, current, rest)
      case InQuery(path, query) => Finish(path, query + rest)
      case InFragment(path, query, fragment) => Finish(path, query + fragment + rest)
    }
  }

  /** Nothing has been written before `start`, nor from `end` on. */
  ghost predicate Outside(before: bytes, after: bytes, start: nat, end: nat) {
    && start <= end <= |before| == |after|
    && after[..start] == before[..start] && after[end..] == before[end..]
  }

  ghost predicate PathFits(path: bytes) {
    U16(|path|) <= PATH_MAX_LEN
  }

  lemma {:induction false} HashAtIs(a: bytes, b: bytes)
    requires HASH !in a
    requires b == [] || b[0] == HASH
    ensures HashAt(a + b) == |a|
  {
    if a == [] {
      assert a + b == b;
    } else {
      HashAtIs(a[1..], b);
      assert (a + b)[1..] == a[1..] + b;
    }
  }

  /** After the delimiter: the progress says that it is the first byte of the query or the fragment. */
  lemma DelimiterRead(p: bytes, c: byte, s: bytes, g: Progress)
    requires s != [] && s[0] == c && PathFits(p)
    requires (c == QUESTION && g == InQuery(p, [c])) || (c == HASH && g == InFragment(p, [], [c]))
    ensures g.Valid() && g.Written() == p + [c]
    ensures g.Expect(s[1..]) == Finish(p, s)
  {
    assert s == [c] + s[1..];
    assert s == [] + [c] + s[1..];
    assert p + [] + [c] == p + [c];
  }

  class Parser {
    const mem: array<byte>
    var path: nat
    var pathlen: nat
    var query: int
    var querylen: nat
    var fragment: int
    var fragmentlen: nat

    constructor (mem: array<byte>)
      ensures this.mem == mem
      ensures path == pathlen == querylen == fragmentlen == 0 && query == fragment == -1
    {
      this.mem := mem;
      path, pathlen := 0, 0;
      query, querylen := -1, 0;
      fragment, fragmentlen := -1, 0;
    }

    /** The C string that starts at `at` and whose NUL is at `end`. */
    static ghost predicate IsString(m: bytes, at: nat, end: nat) {
      at <= end < |m| && m[end] == 0 && forall i :: at <= i < end ==> m[i] != 0
    }

    /** The loop invariant of `ParsePath`. */
    static ghost predicate Reached(m: bytes, start: nat, pos: nat, out: nat, end: nat, g: Progress, meaning: Outcome) {
      && IsString(m, pos, end)
      && start <= out <= pos
      && (out + g.Gap() <= pos || (g.State() == 0 && m[pos] == SLASH))
      && g.Valid()
      && m[start..out] == g.Written()
      && g.Expect(m[pos..end]) == meaning
    }

    /**
     In state 0 the two cursors meet exactly when the directories kept, each behind its slash, are as long as all
     that has been read; then the byte under both is the slash that is still to be read.
     */
    static lemma CursorsMeet(m: bytes, start: nat, pos: nat, out: nat, end: nat, g: Progress, meaning: Outcome)
      requires Reached(m, start, pos, out, end, g, meaning) && g.State() == 0
      ensures out == pos <==> |Join(g.stack)| == pos - start
      ensures out == pos ==> pos < end && m[pos] == SLASH && m[start..pos] == Join(g.stack)
    {
      hide Progress.Valid, Progress.Expect;
    }

    /** For example in "/a/", when the segment has been closed and its second slash is to be read again. */
    static lemma CursorsMeetInDirectory()
      ensures var m := [SLASH, 0x61, SLASH, 0];
              Reached(m, 0, 2, 2, 3, InPath([[0x61]], []), Normalize(m[1..3]))
    {
      var m := [SLASH, 0x61, SLASH, 0];
      assert m[1..3] == [0x61, SLASH] && m[2..3] == [SLASH] && m[0..2] == [SLASH, 0x61];
      OneDirectoryRead();
      assert Join([[0x61]]) == [SLASH, 0x61] by {
        assert [[0x61]][..0] == [];
      }
      hide Resume, Join;
      assert IsString(m, 2, 3);
      assert InPath([[0x61]], []).Valid();
    }

    static lemma OneDirectoryRead()
      ensures Normalize([0x61, SLASH]) == Resume([[0x61]], [], [SLASH])
    {
      var s, t: bytes := [0x61, SLASH], [SLASH];
      assert s[1..] == t && t[1..] == [];
      ByteDecoded(s);
      ByteDecoded(t);
      hide Decode, Resume, IsDots;
      ResumeByte([], [], s, 0x61, t);
      assert [] + [0x61] == [0x61];
      ResumeSlash([], [0x61], t, []);
      assert [] + [[0x61]] == [[0x61]];
      SlashAgain([[0x61]], t);
    }

    /** The value of the two hexadecimal digits behind '%', or -1; the second is read only if the first is good. */
    method Escape(pos: nat, ghost end: nat) returns (v: int)
      requires pos < end && IsString(mem[..], pos, end) && mem[pos] == PERCENT
      ensures v < 0 ==> Decode(mem[pos..end]) == Decoded([], Malformed)
      ensures v >= 0 ==> v < 256 && pos + 3 <= end
      ensures v >= 0 ==> Decode(mem[pos..end]).text == [v] + Decode(mem[pos + 3..end]).text
      ensures v >= 0 ==> Decode(mem[pos..end]).stop == Decode(mem[pos + 3..end]).stop
      ensures v == DOT || v == SLASH ==>
                mem[pos + 2..end][0 := v][1..] == mem[pos + 3..end]
    {
      ghost var s := mem[pos..end];
      assert mem[..][pos] == s[0];
      assert HexValue(0) < 0;
      var high := HexValue(mem[pos + 1]);
      if high < 0 {
        assert |s| > 1 ==> s[1] == mem[pos + 1];
        return -1;
      }
      var low := HexValue(mem[pos + 2]);
      if low < 0 {
        assert |s| > 2 ==> s[2] == mem[pos + 2];
        return -1;
      }
      v := high * 16 + low;
      assert s[1] == mem[pos + 1] && s[2] == mem[pos + 2];
      assert s[3..] == mem[pos + 3..end];
    }

    /** What the fields hold once the walk has come to `g`. */
    ghost predicate Recorded(start: nat, g: Progress)
      reads this
    {
      && path == start && fragmentlen == 0
      && match g
         case InPath(_, _) =>
           query == fragment == -1 && querylen == 0
         case InQuery(p, q) =>
           pathlen == U16(|p|) && query == start + |p| && fragment == -1 && querylen == 0
         case InFragment(p, q, f) =>
           pathlen == U16(|p|) && query == (if q == [] then -1 else start + |p|) &&
           fragment == start + |p| + |q| && querylen == U16(|q|)
    }

    /** One `*out++ = c`, behind everything from `keep` on. */
    method Put(ghost start: nat, out: nat, c: byte, ghost keep: nat, ghost end: nat) returns (out': nat)
      requires start <= out < keep && IsString(mem[..], keep, end)
      modifies mem
      ensures out' == out + 1 && mem[start..out'] == old(mem[start..out]) + [c]
      ensures IsString(mem[..], keep, end) && mem[keep..end] == old(mem[keep..end])
      ensures Outside(old(mem[..]), mem[..], start, end)
    {
      hide Decode, Split, Resolve, Visit, Finish, Join, HashAt;
      mem[out] := c;
      out' := out + 1;
    }

    /** The path has ended before '?' or '#': check its length and copy the delimiter. */
    method EndPath(ghost start: nat, pos: nat, out: nat, ghost end: nat, ghost p: bytes, ghost meaning: Outcome)
      returns (code: Code, pos': nat, out': nat, state': nat, ghost g': Progress)
      requires start <= out <= pos < end && IsString(mem[..], pos, end) && mem[start..out] == p
      requires mem[pos] == QUESTION || mem[pos] == HASH
      requires path == start && fragmentlen == 0 && query == fragment == -1 && querylen == 0
      requires Finish(p, mem[pos..end]) == meaning
      modifies mem, `pathlen, `query, `fragment
      ensures code == PARSE_ERROR ==> meaning == ParseError
      ensures code == SUCCESS ==> Reached(mem[..], start, pos', out', end, g', meaning) && state' == g'.State()
      ensures code == SUCCESS ==> Recorded(start, g') && pos' == pos + 1 && !g'.InPath?
      ensures code != FORBIDDEN && Outside(old(mem[..]), mem[..], start, end)
    {
      hide Decode, Split, Resolve, Visit, Join, HashAt;
      ghost var s := mem[pos..end];
      var c := mem[pos];
      assert mem[pos + 1..end] == s[1..];
      pathlen := U16(out - path);
      if pathlen > PATH_MAX_LEN {
        return PARSE_ERROR, pos, out, 0, InQuery(p, s);
      }
      if c == QUESTION {
        query, state', g' := out, 4, InQuery(p, [c]);
      } else {
        fragment, state', g' := out, 5, InFragment(p, [], [c]);
      }
      code, pos' := SUCCESS, pos + 1;
      out' := Put(start, out, mem[pos], pos', end);
      DelimiterRead(p, c, s, g');
    }

    /** `while (*--out != '/')`: forget the last directory of a stack that has one. */
    method Rewind(ghost start: nat, out: nat, ghost stack: Segments) returns (out': nat)
      requires start <= out <= mem.Length && stack != [] && mem[start..out] == Join(stack)
      requires SLASH !in stack[|stack| - 1]
      ensures start <= out' < out && mem[out'] == SLASH
      ensures mem[start..out'] == Join(stack[..|stack| - 1])
    {
      ghost var front, last := Join(stack[..|stack| - 1]), stack[|stack| - 1];
      ghost var base := start + |front|;
      ghost var s := mem[start..out];
      assert s == front + [SLASH] + last;
      assert forall i :: start <= i < out ==> mem[i] == s[i - start];
      assert forall i :: base < i < out ==> mem[i] == last[i - base - 1];
      out' := out - 1;
      while mem[out'] != SLASH
        invariant base <= out' < out
        decreases out'
      {
        out' := out' - 1;
      }
      assert out' == base;
      assert mem[start..base] == s[..|front|];
    }
    /** Either input was consumed, or a segment was closed at a slash that is still to be skipped. */
    static ghost predicate Progressed(pos: nat, state: nat, pos': nat, state': nat) {
      pos < pos' || (pos == pos' && state' == 0 < state)
    }

    /** A slash closes an empty segment without any effect. */
    static lemma SlashAgain(stack: Segments, s: bytes)
      requires s != [] && s[0] == SLASH
      ensures Resume(stack, [], s) == Resume(stack, [], s[1..])
    {
      ResumeSlash(stack, [], s, s[1..]);
    }

    /** Something malformed makes the whole path malformed, unless it escaped before. */
    static lemma Bad(g: Progress, s: bytes)
      requires g.InPath? && g.Valid() && Decode(s) == Decoded([], Malformed)
      ensures g.Expect(s) == ParseError
    {
      ResumeStop(g.stack, g.current, s);
    }

    /** At '?', '#' or the end, the current segment is the last one. */
    static lemma LastSegment(g: Progress, s: bytes)
      requires g.InPath? && g.Valid() && (s == [] || s[0] == QUESTION || s[0] == HASH)
      ensures g.State() == 3 ==> g.Expect(s) == Finish(g.Written(), s)
      ensures g.State() < 3 ==> g.Expect(s) ==
                                match Visit(g.stack, g.current)
                                case Escaped => Forbidden
                                case Inside(stack) => Finish(Join(stack) + [SLASH], s)
    {
      ResumeStop(g.stack, g.current, s);
    }

    static lemma JoinPush(stack: Segments, segment: bytes)
      ensures Join(stack + [segment]) == Join(stack) + [SLASH] + segment
    {
      assert (stack + [segment])[..|stack|] == stack;
    }

    static lemma JoinEmpty(stack: Segments)
      ensures Join(stack) == [] <==> stack == []
    {
    }

    /** An escaped dot or slash is rewritten as a raw one, which has the same meaning. */
    static lemma EscapedDot(g: Progress, m: bytes, pos: nat, end: nat, v: byte)
      requires g.InPath? && IsString(m, pos, end) && pos + 3 <= end && (v == DOT || v == SLASH)
      requires Decode(m[pos..end]).text == [v] + Decode(m[pos + 3..end]).text
      requires Decode(m[pos..end]).stop == Decode(m[pos + 3..end]).stop
      ensures var m' := m[pos + 2 := v];
              IsString(m', pos + 2, end) && g.Expect(m'[pos + 2..end]) == g.Expect(m[pos..end])
    {
      var s := m[pos + 2 := v][pos + 2..end];
      assert s[0] == v && s[1..] == m[pos + 3..end];
    }

    static lemma Kept(m: bytes, start: nat, out: nat, pos: nat, end: nat, v: byte)
      requires start <= out <= pos < end <= |m|
      ensures m[pos := v][start..out] == m[start..out]
      ensures Outside(m, m[pos := v], start, end)
    {
    }

    /** How a byte that is neither escaped nor the end of the path is decoded. */
    static lemma ByteDecoded(s: bytes)
      requires s != [] && s[0] != PERCENT && s[0] != QUESTION && s[0] != HASH
      ensures s[0] < SPACE ==> Decode(s) == Decoded([], Malformed)
      ensures s[0] >= SPACE ==>
                Decode(s).text == [s[0]] + Decode(s[1..]).text && Decode(s).stop == Decode(s[1..]).stop
    {
    }

    /**
     Write the slash and the dots that were held back, and the byte after them: `v` if it was escaped,
     else the byte at `pos`, which is read only after the others have been written.
     */
    method OpenSegment(ghost start: nat, pos: nat, out: nat, ghost end: nat, ghost g: Progress, ghost meaning: Outcome,
                       dots: nat, v: int, width: nat)
      returns (pos': nat, out': nat, ghost g': Progress)
      requires pos < end && Reached(mem[..], start, pos, out, end, g, meaning) && g.State() == dots < 3 && Recorded(start, g)
      requires v >= 0 ==> mem[pos] == PERCENT
      requires var c := if v < 0 then mem[pos] else v;
               && c < 256 && c != SLASH && (c == DOT ==> dots == 2) && 1 <= width <= end - pos
               && Decode(mem[pos..end]).text == [c] + Decode(mem[pos + width..end]).text
               && Decode(mem[pos..end]).stop == Decode(mem[pos + width..end]).stop
      modifies mem
      ensures Reached(mem[..], start, pos', out', end, g', meaning) && g'.State() == 3 && Recorded(start, g')
      ensures pos' == pos + width && Outside(old(mem[..]), mem[..], start, end)
    {
      hide Decode, Split, Resolve, Visit, Finish, Join, HashAt;
      ghost var s := mem[pos..end];
      ghost var c: byte := if v < 0 then mem[pos] else v;
      pos', g' := pos + width, InPath(g.stack, g.current + [c]);
      ResumeByte(g.stack, g.current, s, c, mem[pos'..end]);
      assert mem[pos'..end] == s[width..];
      out' := Release(start, pos, out, end, g.current, dots);
      assert mem[pos] == s[0] && mem[pos'..end] == s[width..];
      out' := Put(start, out', if v < 0 then mem[pos] else v, pos', end);
      NotDots(g, c);
    }

    /** Write a slash and up to two dots. */
    method Release(ghost start: nat, pos: nat, out: nat, ghost end: nat, ghost held: bytes, dots: nat) returns (out': nat)
      requires start <= out && out + dots < pos && IsString(mem[..], pos, end)
      requires IsDots(held) && |held| == dots
      modifies mem
      ensures out' == out + 1 + dots && mem[start..out'] == old(mem[start..out]) + [SLASH] + held
      ensures IsString(mem[..], pos, end) && mem[pos..end] == old(mem[pos..end])
      ensures Outside(old(mem[..]), mem[..], start, end)
    {
      hide Decode, Split, Resolve, Visit, Finish, Join, HashAt;
      out' := Put(start, out, SLASH, pos, end);
      if dots > 0 {
        out' := Put(start, out', DOT, pos, end);
      }
      if dots > 1 {
        out' := Put(start, out', DOT, pos, end);
      }
    }

    static lemma NotDots(g: Progress, c: byte)
      requires g.InPath? && g.Valid() && g.State() < 3 && c != SLASH && (c == DOT ==> g.State() == 2)
      ensures var g' := InPath(g.stack, g.current + [c]);
              g'.Valid() && g'.State() == 3 && g'.Written() == Join(g.stack) + [SLASH] + g.current + [c]
    {
      JoinPush(g.stack, g.current + [c]);
      assert c == (g.current + [c])[|g.current|];
    }

    /** '%' after a slash and `dots` dots. */
    method EscapeAfterDots(ghost start: nat, pos: nat, out: nat, ghost end: nat, ghost g: Progress, ghost meaning: Outcome, dots: nat)
      returns (code: Code, pos': nat, out': nat, state': nat, ghost g': Progress)
      requires pos < end && Reached(mem[..], start, pos, out, end, g, meaning) && g.State() == dots < 3 && Recorded(start, g)
      requires mem[pos] == PERCENT
      modifies mem
      ensures code == PARSE_ERROR ==> meaning == ParseError
      ensures code == SUCCESS ==> Reached(mem[..], start, pos', out', end, g', meaning) && state' == g'.State()
      ensures code == SUCCESS ==> Recorded(start, g') && pos < pos'
      ensures code != FORBIDDEN && Outside(old(mem[..]), mem[..], start, end)
      ensures code == SUCCESS ==> state' == dots || state' == 3
    {
      hide Decode, Split, Resolve, Visit, Finish, Join, HashAt;
      code, pos', out', state', g' := SUCCESS, pos, out, dots, g;
      var v := Escape(pos, end);
      if v < 0 {
        Bad(g, mem[pos..end]);
        code := PARSE_ERROR;
      } else if v == DOT || v == SLASH {
        EscapedDot(g, mem[..], pos, end, v);
        Kept(mem[..], start, out, pos + 2, end, v);
        mem[pos + 2] := v;
        pos' := pos + 2;
      } else {
        pos', out', g' := OpenSegment(start, pos, out, end, g, meaning, dots, v, 3);
        state' := 3;
      }
    }

    /**
     The path ends after a slash and `dots` dots: it keeps a slash at its end, its own or the one
     that the last directory was written after.
     */
    method CloseDots(ghost start: nat, ghost pos: nat, out: nat, ghost end: nat, ghost g: Progress, dots: nat)
      returns (escaped: bool, out': nat, ghost p: bytes)
      requires g.InPath? && g.Valid() && g.State() == dots < 3 && path == start
      requires start <= out && out + dots < pos && IsString(mem[..], pos, end) && mem[start..out] == Join(g.stack)
      modifies mem
      ensures escaped <==> Visit(g.stack, g.current) == Escaped
      ensures !escaped ==> start <= out' <= pos && mem[start..out'] == p == Join(Visit(g.stack, g.current).stack) + [SLASH]
      ensures IsString(mem[..], pos, end) && mem[pos..end] == old(mem[pos..end]) && Outside(old(mem[..]), mem[..], start, end)
    {
      escaped, out', p := false, out, Join(g.stack) + [SLASH];
      JoinEmpty(g.stack);
      if dots < 2 {
        out' := Put(start, out, SLASH, pos, end);
      } else if out == path {
        escaped := true;
      } else {
        out' := Rewind(start, out, g.stack);
        out' := out' + 1;
        p := Join(g.stack[..|g.stack| - 1]) + [SLASH];
        assert mem[start..out'] == mem[start..out' - 1] + [SLASH];
      }
    }

    /** '?' or '#' after a slash and `dots` dots. */
    method EndAfterDots(ghost start: nat, pos: nat, out: nat, ghost end: nat, ghost g: Progress, ghost meaning: Outcome, dots: nat)
      returns (code: Code, pos': nat, out': nat, state': nat, ghost g': Progress)
      requires pos < end && Reached(mem[..], start, pos, out, end, g, meaning) && g.State() == dots < 3 && Recorded(start, g)
      requires mem[pos] == QUESTION || mem[pos] == HASH
      modifies mem, `pathlen, `query, `fragment
      ensures code == PARSE_ERROR ==> meaning == ParseError
      ensures code == FORBIDDEN ==> meaning == Forbidden
      ensures code == SUCCESS ==> Reached(mem[..], start, pos', out', end, g', meaning) && state' == g'.State()
      ensures code == SUCCESS ==> Recorded(start, g') && pos < pos'
      ensures Outside(old(mem[..]), mem[..], start, end)
      ensures code == SUCCESS ==> state' >= 4
    {
      LastSegment(g, mem[pos..end]);
      var escaped;
      ghost var p;
      escaped, out', p := CloseDots(start, pos, out, end, g, dots);
      if escaped {
        return FORBIDDEN, pos, out, 0, g;
      }
      code, pos', out', state', g' := EndPath(start, pos, out', end, p, meaning);
    }

    /** "/": nothing of the next segment has been read. */
    method AfterSlash(ghost start: nat, pos: nat, out: nat, ghost end: nat, ghost g: Progress, ghost meaning: Outcome)
      returns (code: Code, pos': nat, out': nat, state': nat, ghost g': Progress)
      requires pos < end && Reached(mem[..], start, pos, out, end, g, meaning) && g.State() == 0 && Recorded(start, g)
      modifies mem, `pathlen, `query, `fragment
      ensures code == PARSE_ERROR ==> meaning == ParseError
      ensures code == FORBIDDEN ==> meaning == Forbidden
      ensures code == SUCCESS ==> Reached(mem[..], start, pos', out', end, g', meaning) && state' == g'.State()
      ensures code == SUCCESS ==> Recorded(start, g') && Progressed(pos, 0, pos', state')
      ensures Outside(old(mem[..]), mem[..], start, end)
    {
      hide Decode, Split, Resolve, Visit, Finish, Join, HashAt;
      ghost var s := mem[pos..end];
      code, pos', out', state', g' := SUCCESS, pos, out, 0, g;
      var c := mem[pos];
      assert c == s[0] && s[1..] == mem[pos + 1..end];
      if c != PERCENT && c != QUESTION && c != HASH {
        ByteDecoded(s);
      }
      if c == SLASH {
        SlashAgain(g.stack, s);
        pos' := pos + 1;
      } else if c == DOT {
        ResumeByte(g.stack, g.current, s, c, s[1..]);
        assert g.current + [c] == [DOT];
        pos', state', g' := pos + 1, 1, InPath(g.stack, [DOT]);
      } else if c == QUESTION || c == HASH {
        code, pos', out', state', g' := EndAfterDots(start, pos, out, end, g, meaning, 0);
      } else if c == PERCENT {
        code, pos', out', state', g' := EscapeAfterDots(start, pos, out, end, g, meaning, 0);
      } else if c >= SPACE {
        pos', out', g' := OpenSegment(start, pos, out, end, g, meaning, 0, -1, 1);
        state' := 3;
      } else {
        Bad(g, s);
        code := PARSE_ERROR;
      }
    }

    /** "/." */
    method AfterDot(ghost start: nat, pos: nat, out: nat, ghost end: nat, ghost g: Progress, ghost meaning: Outcome)
      returns (code: Code, pos': nat, out': nat, state': nat, ghost g': Progress)
      requires pos < end && Reached(mem[..], start, pos, out, end, g, meaning) && g.State() == 1 && Recorded(start, g)
      modifies mem, `pathlen, `query, `fragment
      ensures code == PARSE_ERROR ==> meaning == ParseError
      ensures code == FORBIDDEN ==> meaning == Forbidden
      ensures code == SUCCESS ==> Reached(mem[..], start, pos', out', end, g', meaning) && state' == g'.State()
      ensures code == SUCCESS ==> Recorded(start, g') && Progressed(pos, 1, pos', state')
      ensures Outside(old(mem[..]), mem[..], start, end)
      ensures code == SUCCESS && state' == 0 ==> out' + 2 <= pos'
    {
      hide Decode, Split, Resolve, Finish, Join, HashAt;
      ghost var s := mem[pos..end];
      code, pos', out', state', g' := SUCCESS, pos, out, 1, g;
      var c := mem[pos];
      assert c == s[0] && s[1..] == mem[pos + 1..end];
      if c != PERCENT && c != QUESTION && c != HASH {
        ByteDecoded(s);
      }
      if c == SLASH {
        ResumeSlash(g.stack, g.current, s, s[1..]);
        SlashAgain(g.stack, s);
        state', g' := 0, InPath(g.stack, []);
      } else if c == DOT {
        ResumeByte(g.stack, g.current, s, c, s[1..]);
        assert g.current + [c] == [DOT, DOT];
        pos', state', g' := pos + 1, 2, InPath(g.stack, [DOT, DOT]);
      } else if c == QUESTION || c == HASH {
        code, pos', out', state', g' := EndAfterDots(start, pos, out, end, g, meaning, 1);
      } else if c == PERCENT {
        code, pos', out', state', g' := EscapeAfterDots(start, pos, out, end, g, meaning, 1);
      } else if c >= SPACE {
        pos', out', g' := OpenSegment(start, pos, out, end, g, meaning, 1, -1, 1);
        state' := 3;
      } else {
        Bad(g, s);
        code := PARSE_ERROR;
      }
    }

    /** "/.." */
    method AfterDots(ghost start: nat, pos: nat, out: nat, ghost end: nat, ghost g: Progress, ghost meaning: Outcome)
      returns (code: Code, pos': nat, out': nat, state': nat, ghost g': Progress)
      requires pos < end && Reached(mem[..], start, pos, out, end, g, meaning) && g.State() == 2 && Recorded(start, g)
      modifies mem, `pathlen, `query, `fragment
      ensures code == PARSE_ERROR ==> meaning == ParseError
      ensures code == FORBIDDEN ==> meaning == Forbidden
      ensures code == SUCCESS ==> Reached(mem[..], start, pos', out', end, g', meaning) && state' == g'.State()
      ensures code == SUCCESS ==> Recorded(start, g') && Progressed(pos, 2, pos', state')
      ensures Outside(old(mem[..]), mem[..], start, end)
      ensures code == SUCCESS && state' == 0 ==> out' + 4 <= pos'
    {
      hide Decode, Split, Resolve, Finish, Join, HashAt;
      ghost var s := mem[pos..end];
      code, pos', out', state', g' := SUCCESS, pos, out, 2, g;
      var c := mem[pos];
      assert c == s[0] && s[1..] == mem[pos + 1..end];
      if c != PERCENT && c != QUESTION && c != HASH {
        ByteDecoded(s);
      }
      if c == SLASH {
        ResumeSlash(g.stack, g.current, s, s[1..]);
        JoinEmpty(g.stack);
        if out == path {
          return FORBIDDEN, pos, out, 0, g;
        }
        out' := Rewind(start, out, g.stack);
        SlashAgain(g.stack[..|g.stack| - 1], s);
        state', g' := 0, InPath(g.stack[..|g.stack| - 1], []);
      } else if c == QUESTION || c == HASH {
        code, pos', out', state', g' := EndAfterDots(start, pos, out, end, g, meaning, 2);
      } else if c == PERCENT {
        code, pos', out', state', g' := EscapeAfterDots(start, pos, out, end, g, meaning, 2);
      } else if c >= SPACE {
        pos', out', g' := OpenSegment(start, pos, out, end, g, meaning, 2, -1, 1);
        state' := 3;
      } else {
        Bad(g, s);
        code := PARSE_ERROR;
      }
    }

    static lemma SegmentCloses(g: Progress, s: bytes)
      requires g.InPath? && g.Valid() && g.State() == 3 && s != [] && s[0] == SLASH
      ensures var g' := InPath(g.stack + [g.current], []);
              g'.Valid() && g'.State() == 0 && g'.Written() == g.Written() && g'.Expect(s) == g.Expect(s)
    {
      ResumeSlash(g.stack, g.current, s, s[1..]);
      SlashAgain(g.stack + [g.current], s);
    }

    /** Copy one more byte of a segment that has already been opened. */
    method Extend(ghost start: nat, pos: nat, out: nat, ghost end: nat, ghost g: Progress, ghost meaning: Outcome, v: byte, width: nat)
      returns (pos': nat, out': nat, ghost g': Progress)
      requires pos < end && Reached(mem[..], start, pos, out, end, g, meaning) && g.State() == 3 && Recorded(start, g)
      requires v != SLASH && 1 <= width <= end - pos
      requires Decode(mem[pos..end]).text == [v] + Decode(mem[pos + width..end]).text
      requires Decode(mem[pos..end]).stop == Decode(mem[pos + width..end]).stop
      modifies mem
      ensures Reached(mem[..], start, pos', out', end, g', meaning) && g'.State() == 3 && Recorded(start, g')
      ensures pos' == pos + width && Outside(old(mem[..]), mem[..], start, end)
    {
      hide Decode, Split, Resolve, Visit, Finish, Join, HashAt;
      ghost var s := mem[pos..end];
      pos', g' := pos + width, InPath(g.stack, g.current + [v]);
      ResumeByte(g.stack, g.current, s, v, mem[pos'..end]);
      assert mem[pos'..end] == s[width..];
      SegmentExtended(g, v);
      out' := Put(start, out, v, pos', end);
    }

    /** '%' in a segment that has already been opened. */
    method EscapeInSegment(ghost start: nat, pos: nat, out: nat, ghost end: nat, ghost g: Progress, ghost meaning: Outcome)
      returns (code: Code, pos': nat, out': nat, ghost g': Progress)
      requires pos < end && Reached(mem[..], start, pos, out, end, g, meaning) && g.State() == 3 && Recorded(start, g)
      requires mem[pos] == PERCENT
      modifies mem
      ensures code == PARSE_ERROR ==> meaning == ParseError
      ensures code == SUCCESS ==> Reached(mem[..], start, pos', out', end, g', meaning) && g'.State() == 3
      ensures code == SUCCESS ==> Recorded(start, g') && pos < pos'
      ensures code != FORBIDDEN && Outside(old(mem[..]), mem[..], start, end)
    {
      hide Decode, Split, Resolve, Visit, Finish, Join, HashAt;
      code, pos', out', g' := SUCCESS, pos, out, g;
      var v := Escape(pos, end);
      if v < 0 {
        Bad(g, mem[pos..end]);
        code := PARSE_ERROR;
      } else if v == DOT || v == SLASH {
        EscapedDot(g, mem[..], pos, end, v);
        Kept(mem[..], start, out, pos + 2, end, v);
        mem[pos + 2] := v;
        pos' := pos + 2;
      } else {
        pos', out', g' := Extend(start, pos, out, end, g, meaning, v, 3);
      }
    }

    static lemma SegmentExtended(g: Progress, c: byte)
      requires g.InPath? && g.Valid() && g.State() == 3 && c != SLASH
      ensures var g' := InPath(g.stack, g.current + [c]);
              g'.Valid() && g'.State() == 3 && g'.Written() == g.Written() + [c]
    {
      var longer := g.current + [c];
      assert longer[..|g.current|] == g.current;
      assert |g.current| < 2 ==> longer[0] == g.current[0];
      assert |g.current| == 2 ==> longer != [DOT, DOT];
      JoinPush(g.stack, g.current);
      JoinPush(g.stack, longer);
    }

    /** "/<path>" */
    method ReadSegment(ghost start: nat, pos: nat, out: nat, ghost end: nat, ghost g: Progress, ghost meaning: Outcome)
      returns (code: Code, pos': nat, out': nat, state': nat, ghost g': Progress)
      requires pos < end && Reached(mem[..], start, pos, out, end, g, meaning) && g.State() == 3 && Recorded(start, g)
      modifies mem, `pathlen, `query, `fragment
      ensures code == PARSE_ERROR ==> meaning == ParseError
      ensures code == SUCCESS ==> Reached(mem[..], start, pos', out', end, g', meaning) && state' == g'.State()
      ensures code == SUCCESS ==> Recorded(start, g') && Progressed(pos, 3, pos', state')
      ensures code != FORBIDDEN && Outside(old(mem[..]), mem[..], start, end)
      ensures code == SUCCESS && state' == 0 ==> pos' == pos && out' == out && mem[pos] == SLASH
    {
      hide Decode, Split, Resolve, Visit, Finish, Join, HashAt;
      ghost var s := mem[pos..end];
      code, pos', out', state', g' := SUCCESS, pos, out, 3, g;
      var c := mem[pos];
      assert c == s[0] && s[1..] == mem[pos + 1..end];
      if c != PERCENT && c != QUESTION && c != HASH {
        ByteDecoded(s);
      }
      if c == SLASH {
        SegmentCloses(g, s);
        state', g' := 0, InPath(g.stack + [g.current], []);
      } else if c == PERCENT {
        code, pos', out', g' := EscapeInSegment(start, pos, out, end, g, meaning);
      } else if c == QUESTION || c == HASH {
        LastSegment(g, s);
        code, pos', out', state', g' := EndPath(start, pos, out, end, g.Written(), meaning);
      } else if c >= SPACE {
        pos', out', g' := Extend(start, pos, out, end, g, meaning, c, 1);
      } else {
        Bad(g, s);
        code := PARSE_ERROR;
      }
    }

    /** The '#' at the end of a query: check its length and begin the fragment. */
    method EndQuery(ghost start: nat, pos: nat, out: nat, ghost end: nat, ghost g: Progress, ghost meaning: Outcome)
      returns (code: Code, pos': nat, out': nat, state': nat, ghost g': Progress)
      requires pos < end && Reached(mem[..], start, pos, out, end, g, meaning) && g.InQuery? && Recorded(start, g)
      requires mem[pos] == HASH
      modifies mem, `fragment, `querylen
      ensures code == PARSE_ERROR ==> meaning == ParseError
      ensures code == SUCCESS ==> Reached(mem[..], start, pos', out', end, g', meaning) && state' == g'.State()
      ensures code == SUCCESS ==> Recorded(start, g') && pos' == pos + 1
      ensures code != FORBIDDEN && Outside(old(mem[..]), mem[..], start, end)
    {
      hide Decode, Split, Resolve, Resume, Visit, Finish, Join, HashAt, Printable, PathFits;
      hide Progress.Expect, Progress.Valid;
      ghost var s := mem[pos..end];
      code, pos', out', state', g' := SUCCESS, pos, out, 4, g;
      assert s[0] == HASH && s[1..] == mem[pos + 1..end];
      QueryEnds(g, s);
      querylen := U16(out - query);
      if querylen > QUERY_MAX_LEN {
        return PARSE_ERROR, pos, out, 4, g;
      }
      fragment := out;
      pos', state', g' := pos + 1, 5, InFragment(g.path, g.query, [HASH]);
      out' := Put(start, out, mem[pos], pos', end);
    }

    /** Query: everything printable up to '#'. */
    method ReadQuery(ghost start: nat, pos: nat, out: nat, ghost end: nat, ghost g: Progress, ghost meaning: Outcome)
      returns (code: Code, pos': nat, out': nat, state': nat, ghost g': Progress)
      requires pos < end && Reached(mem[..], start, pos, out, end, g, meaning) && g.InQuery? && Recorded(start, g)
      modifies mem, `pathlen, `query, `fragment, `querylen
      ensures code == PARSE_ERROR ==> meaning == ParseError
      ensures code == SUCCESS ==> Reached(mem[..], start, pos', out', end, g', meaning) && state' == g'.State()
      ensures code == SUCCESS ==> Recorded(start, g') && Progressed(pos, 4, pos', state')
      ensures code != FORBIDDEN && Outside(old(mem[..]), mem[..], start, end)
    {
      hide Decode, Split, Resolve, Resume, Visit, Finish, Join, HashAt, Printable, PathFits;
      hide Progress.Expect, Progress.Valid;
      ghost var s := mem[pos..end];
      code, pos', out', state', g' := SUCCESS, pos, out, 4, g;
      var c := mem[pos];
      assert c == s[0] && s[1..] == mem[pos + 1..end];
      if c == HASH {
        code, pos', out', state', g' := EndQuery(start, pos, out, end, g, meaning);
      } else if c > SPACE {
        pos', g' := pos + 1, InQuery(g.path, g.query + [c]);
        TailExtended(g, s);
        out' := Put(start, out, mem[pos], pos', end);
      } else {
        TailBroken(g, s);
        code := PARSE_ERROR;
      }
    }

    /** Fragment: everything printable. */
    method ReadFragment(ghost start: nat, pos: nat, out: nat, ghost end: nat, ghost g: Progress, ghost meaning: Outcome)
      returns (code: Code, pos': nat, out': nat, state': nat, ghost g': Progress)
      requires pos < end && Reached(mem[..], start, pos, out, end, g, meaning) && g.InFragment? && Recorded(start, g)
      modifies mem, `pathlen, `query, `fragment
      ensures code == PARSE_ERROR ==> meaning == ParseError
      ensures code == SUCCESS ==> Reached(mem[..], start, pos', out', end, g', meaning) && state' == g'.State()
      ensures code == SUCCESS ==> Recorded(start, g') && Progressed(pos, 5, pos', state')
      ensures code != FORBIDDEN && Outside(old(mem[..]), mem[..], start, end)
    {
      hide Decode, Split, Resolve, Resume, Visit, Finish, Join, HashAt, Printable, PathFits;
      hide Progress.Expect, Progress.Valid;
      ghost var s := mem[pos..end];
      code, pos', out', state', g' := SUCCESS, pos, out, 5, g;
      var c := mem[pos];
      assert c == s[0] && s[1..] == mem[pos + 1..end];
      if c > SPACE {
        pos', g' := pos + 1, InFragment(g.path, g.query, g.fragment + [c]);
        TailExtended(g, s);
        out' := Put(start, out, mem[pos], pos', end);
      } else {
        TailBroken(g, s);
        code := PARSE_ERROR;
      }
    }

    static lemma QueryEnds(g: Progress, s: bytes)
      requires g.InQuery? && g.Valid() && s != [] && s[0] == HASH
      ensures U16(|g.query|) > QUERY_MAX_LEN ==> g.Expect(s) == ParseError
      ensures U16(|g.query|) <= QUERY_MAX_LEN ==>
                var g' := InFragment(g.path, g.query, [HASH]);
                g'.Valid() && g'.Expect(s[1..]) == g.Expect(s) && g'.Written() == g.Written() + [HASH]
      ensures g.query != [] && |g.Written()| == |g.path| + |g.query|
    {
      HashAtIs(g.query, s);
      assert (g.query + s)[..|g.query|] == g.query;
      assert g.query + [HASH] + s[1..] == g.query + s;
    }

    static lemma TailBroken(g: Progress, s: bytes)
      requires !g.InPath? && s != [] && s[0] <= SPACE
      ensures g.Expect(s) == ParseError
    {
      if g.InQuery? {
        assert (g.query + s)[|g.query|] == s[0];
      } else {
        assert (g.query + g.fragment + s)[|g.query + g.fragment|] == s[0];
      }
    }

    static lemma TailExtended(g: Progress, s: bytes)
      requires !g.InPath? && g.Valid() && s != [] && s[0] > SPACE && (g.InQuery? ==> s[0] != HASH)
      ensures var g' := if g.InQuery? then InQuery(g.path, g.query + [s[0]])
                        else InFragment(g.path, g.query, g.fragment + [s[0]]);
              g'.Valid() && g'.Expect(s[1..]) == g.Expect(s) && g'.Written() == g.Written() + [s[0]]
    {
      if g.InQuery? {
        assert g.query + [s[0]] + s[1..] == g.query + s;
        assert g.path + (g.query + [s[0]]) == g.path + g.query + [s[0]];
      } else {
        assert g.query + (g.fragment + [s[0]]) + s[1..] == g.query + g.fragment + s;
        assert g.path + g.query + (g.fragment + [s[0]]) == g.path + g.query + g.fragment + [s[0]];
      }
    }

    /** One pass of the loop. */
    method Step(ghost start: nat, state: nat, pos: nat, out: nat, ghost end: nat, ghost g: Progress, ghost meaning: Outcome)
      returns (code: Code, pos': nat, out': nat, state': nat, ghost g': Progress)
      requires pos < end && Reached(mem[..], start, pos, out, end, g, meaning) && g.State() == state && Recorded(start, g)
      modifies mem, `pathlen, `query, `fragment, `querylen
      ensures code == PARSE_ERROR ==> meaning == ParseError
      ensures code == FORBIDDEN ==> meaning == Forbidden
      ensures code == SUCCESS ==> Reached(mem[..], start, pos', out', end, g', meaning) && state' == g'.State()
      ensures code == SUCCESS ==> Recorded(start, g') && Progressed(pos, state, pos', state')
      ensures Outside(old(mem[..]), mem[..], start, end)
    {
      hide Decode, Split, Resolve, Visit, Finish, Join, HashAt;
      match state
      case 0 => code, pos', out', state', g' := AfterSlash(start, pos, out, end, g, meaning);
      case 1 => code, pos', out', state', g' := AfterDot(start, pos, out, end, g, meaning);
      case 2 => code, pos', out', state', g' := AfterDots(start, pos, out, end, g, meaning);
      case 3 => code, pos', out', state', g' := ReadSegment(start, pos, out, end, g, meaning);
      case 4 => code, pos', out', state', g' := ReadQuery(start, pos, out, end, g, meaning);
      case _ => code, pos', out', state', g' := ReadFragment(start, pos, out, end, g, meaning);
    }

    /** The input has ended inside the path. */
    method EndOfPath(ghost start: nat, state: nat, out: nat, ghost end: nat, ghost g: Progress, ghost meaning: Outcome)
      returns (code: Code, out': nat)
      requires Reached(mem[..], start, end, out, end, g, meaning) && g.State() == state < 4 && Recorded(start, g)
      modifies mem, `pathlen
      ensures code == PARSE_ERROR ==> meaning == ParseError
      ensures code == FORBIDDEN ==> meaning == Forbidden
      ensures code == SUCCESS ==> meaning.Success? && Recorded'(start, meaning)
      ensures code == SUCCESS ==> start <= out' <= end && mem[start..out'] == meaning.path + meaning.query + meaning.fragment
      ensures Outside(old(mem[..]), mem[..], start, end)
    {
      hide Decode, Split, Resolve, Resume, Finish, Join, HashAt;
      LastSegment(g, []);
      assert mem[end..end] == [];
      out' := out;
      ghost var p := g.Written();
      if state < 3 {
        var escaped;
        escaped, out', p := CloseDots(start, end, out, end, g, state);
        if escaped {
          return FORBIDDEN, out;
        }
      }
      FinishEnd(p);
      assert p + [] + [] == p;
      pathlen := U16(out' - path);
      code := if pathlen > PATH_MAX_LEN then PARSE_ERROR else SUCCESS;
    }

    static lemma FinishEnd(p: bytes)
      ensures Finish(p, []) == if PathFits(p) then UrlPath.Success(p, [], []) else ParseError
    {
      var rest: bytes := [];
      assert rest[..0] == [] && rest[0..] == [];
    }

    /** The input has ended inside the query or the fragment. */
    method EndOfTail(ghost start: nat, state: nat, out: nat, ghost end: nat, ghost g: Progress, ghost meaning: Outcome) returns (code: Code)
      requires Reached(mem[..], start, end, out, end, g, meaning) && g.State() == state >= 4 && Recorded(start, g)
      modifies `querylen, `fragmentlen
      ensures code == (if meaning == ParseError then PARSE_ERROR else SUCCESS)
      ensures code == SUCCESS ==> meaning.Success? && Recorded'(start, meaning)
      ensures code == SUCCESS ==> g.Written() == meaning.path + meaning.query + meaning.fragment
    {
      hide Decode, Split, Resolve, Visit, Finish, Join, HashAt;
      assert mem[end..end] == [];
      TailEnds(g);
      if state == 4 {
        querylen := U16(out - query);
        code := if querylen > QUERY_MAX_LEN then PARSE_ERROR else SUCCESS;
      } else {
        fragmentlen := U16(out - fragment);
        code := if fragmentlen > FRAGMENT_MAX_LEN then PARSE_ERROR else SUCCESS;
      }
    }

    static lemma TailEnds(g: Progress)
      requires !g.InPath? && g.Valid()
      ensures g.InQuery? ==> g.Expect([]) ==
                             if U16(|g.query|) <= QUERY_MAX_LEN then UrlPath.Success(g.path, g.query, []) else ParseError
      ensures g.InFragment? ==> g.Expect([]) ==
                                if U16(|g.fragment|) <= FRAGMENT_MAX_LEN then UrlPath.Success(g.path, g.query, g.fragment) else ParseError
      ensures g.InQuery? ==> g.Written() == g.path + g.query + []
    {
      if g.InQuery? {
        HashAtIs(g.query, []);
        assert g.query + [] == g.query;
        assert g.path + g.query + [] == g.path + g.query;
      } else {
        HashAtIs(g.query, g.fragment);
        assert g.query + g.fragment + [] == g.query + g.fragment;
        assert (g.query + g.fragment)[..|g.query|] == g.query;
        assert (g.query + g.fragment)[|g.query|..] == g.fragment;
      }
    }

    /** The code after the loop. */
    method AtEnd(ghost start: nat, state: nat, out: nat, ghost end: nat, ghost g: Progress, ghost meaning: Outcome)
      returns (code: Code, out': nat)
      requires Reached(mem[..], start, end, out, end, g, meaning) && g.State() == state && Recorded(start, g)
      modifies mem, `pathlen, `querylen, `fragmentlen
      ensures code == PARSE_ERROR ==> meaning == ParseError
      ensures code == FORBIDDEN ==> meaning == Forbidden
      ensures code == SUCCESS ==> meaning.Success? && Recorded'(start, meaning)
      ensures code == SUCCESS ==> start <= out' <= end && mem[start..out'] == meaning.path + meaning.query + meaning.fragment
      ensures Outside(old(mem[..]), mem[..], start, end)
    {
      if state < 4 {
        code, out' := EndOfPath(start, state, out, end, g, meaning);
      } else {
        out' := out;
        code := EndOfTail(start, state, out, end, g, meaning);
      }
    }

    /** What the fields hold for a path that was accepted; an absent query or fragment is a null pointer. */
    ghost predicate Recorded'(start: nat, accepted: Outcome)
      requires accepted.Success?
      reads this
    {
      && path == start && pathlen == U16(|accepted.path|)
      && query == (if accepted.query == [] then -1 else start + |accepted.path|)
      && querylen == U16(|accepted.query|)
      && fragment == (if accepted.fragment == [] then -1 else start + |accepted.path| + |accepted.query|)
      && fragmentlen == U16(|accepted.fragment|)
    }

    /** The loop and what comes after it. */
    method Run(pos0: nat, ghost end: nat, ghost meaning: Outcome) returns (code: Code, out: nat)
      requires path <= pos0 < end && IsString(mem[..], pos0, end) && meaning == Normalize(mem[pos0 + 1..end])
      requires fragmentlen == querylen == 0 && query == fragment == -1
      modifies mem, `pathlen, `query, `querylen, `fragment, `fragmentlen
      ensures code == PARSE_ERROR ==> meaning == ParseError
      ensures code == FORBIDDEN ==> meaning == Forbidden
      ensures code == SUCCESS ==> meaning.Success? && Recorded'(path, meaning)
      ensures code == SUCCESS ==> path <= out <= end && mem[path..out] == meaning.path + meaning.query + meaning.fragment
      ensures Outside(old(mem[..]), mem[..], path, end)
    {
      hide Decode, Split, Resolve, Visit, Finish, Join, HashAt;
      ghost var start, g := path, InPath([], []);
      var state;
      code, out, state, g := Walk(pos0, end, meaning);
      if code == SUCCESS {
        code, out := AtEnd(start, state, out, end, g, meaning);
      }
    }

    /** The call reports `meaning`; an accepted path is in memory with its query, its fragment and a NUL. */
    ghost predicate Answers(meaning: Outcome, code: Code, len: nat, len': nat, end: nat)
      reads this, mem
    {
      match meaning
      case ParseError => code == PARSE_ERROR
      case Forbidden => code == FORBIDDEN
      case Success(p, q, f) =>
        && code == SUCCESS && Recorded'(path, meaning)
        && path + |p + q + f| <= end < mem.Length
        && mem[path..path + |p + q + f|] == p + q + f && mem[path + |p + q + f|] == 0
        && len' == U16(len + |p + q + f|)
    }

    /** The bytes up to the NUL. */
    method CString(pos0: nat, ghost end: nat) returns (s: bytes)
      requires IsString(mem[..], pos0, end)
      ensures s == mem[pos0..end]
    {
      s := [];
      var pos := pos0;
      while mem[pos] != 0
        invariant pos0 <= pos <= end && s == mem[pos0..pos]
        decreases end - pos
      {
        assert mem[pos0..pos + 1] == mem[pos0..pos] + [mem[pos]];
        s := s + [mem[pos]];
        pos := pos + 1;
      }
    }

    /** The loop over the input, up to its end or the first error. */
    method Walk(pos0: nat, ghost end: nat, ghost meaning: Outcome)
      returns (code: Code, out: nat, state: nat, ghost g: Progress)
      requires path <= pos0 < end && IsString(mem[..], pos0, end) && meaning == Normalize(mem[pos0 + 1..end])
      requires fragmentlen == querylen == 0 && query == fragment == -1
      modifies mem, `pathlen, `query, `querylen, `fragment
      ensures code == PARSE_ERROR ==> meaning == ParseError
      ensures code == FORBIDDEN ==> meaning == Forbidden
      ensures code == SUCCESS ==> Reached(mem[..], path, end, out, end, g, meaning) && state == g.State() && Recorded(path, g)
      ensures Outside(old(mem[..]), mem[..], path, end)
    {
      hide Decode, Split, Resolve, Visit, Finish, HashAt;
      ghost var start := path;
      var pos := pos0 + 1;
      code, out, state, g := SUCCESS, path, 0, InPath([], []);
      while mem[pos] != 0
        invariant Reached(mem[..], start, pos, out, end, g, meaning) && state == g.State() && Recorded(start, g)
        invariant code == SUCCESS && Outside(old(mem[..]), mem[..], start, end)
        decreases end - pos, state
      {
        assert pos < end;
        ghost var pos1, state1 := pos, state;
        code, pos, out, state, g := Step(start, state, pos, out, end, g, meaning);
        if code != SUCCESS {
          return;
        }
        assert Progressed(pos1, state1, pos, state);
      }
      assert mem[..][pos] == 0;
    }

    /**
     Normalise the path whose '/' is at `pos0`, writing the result from `path` on. `len` is what comes before it,
     and `received` collects the path as it was received.
     */
    method ParsePath(pos0: nat, len: nat, received: bytes, ghost end: nat)
      returns (code: Code, len': nat, received': bytes)
      requires path <= pos0 < end && IsString(mem[..], pos0, end) && mem[pos0] == SLASH
      requires fragmentlen == querylen == 0 && query == fragment == -1
      modifies mem, `pathlen, `query, `querylen, `fragment, `fragmentlen
      ensures received' == received + old(mem[pos0..end])
      ensures Outside(old(mem[..]), mem[..], path, end)
      ensures Answers(Normalize(old(mem[pos0 + 1..end])), code, len, len', end)
    {
      hide Decode, Split, Resolve, Visit, Finish, Join, HashAt;
      ghost var meaning, start := Normalize(mem[pos0 + 1..end]), path;
      var s := CString(pos0, end);
      len', received' := len, received + s;
      var out;
      code, out := Run(pos0, end, meaning);
      if code != SUCCESS {
        return;
      }
      ghost var written := mem[start..out];
      mem[out] := 0;
      len' := U16(len + (out - path));
      assert mem[start..out] == written;
    }
  }
}

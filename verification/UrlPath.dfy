/**
 What it means to normalise a request path: decode every escape once, split at
 the slashes, and walk the segments with a stack of directories.
 */
module UrlPath {
  import opened Bytes

  const PATH_MAX_LEN := 4096
  const QUERY_MAX_LEN := 4096
  const FRAGMENT_MAX_LEN := 4096

  datatype Outcome =
    | ParseError
    | Forbidden
    | Success(path: bytes, query: bytes, fragment: bytes)

  /** Where decoding stopped: at something malformed, or at the first raw '?' or '#' (or the end). */
  datatype Stop = Malformed | Tail(rest: bytes)

  datatype Decoded = Decoded(text: bytes, stop: Stop)

  type Segments = seq<bytes>

  function Decode(s: bytes): Decoded {
    if s == [] || s[0] == QUESTION || s[0] == HASH then
      Decoded([], Tail(s))
    else if s[0] == PERCENT then
      if |s| < 3 || HexValue(s[1]) < 0 || HexValue(s[2]) < 0 then
        Decoded([], Malformed)
      else
        var d := Decode(s[3..]);
        d.(text := [HexValue(s[1]) * 16 + HexValue(s[2])] + d.text)
    else if s[0] < SPACE then
      Decoded([], Malformed)
    else
      var d := Decode(s[1..]);
      d.(text := [s[0]] + d.text)
  }

  /** The text between slashes; a text without slashes is one segment. */
  function Split(t: bytes): (r: Segments)
    ensures r != []
  {
    if t == [] then
      [[]]
    else
      var r := Split(t[1..]);
      if t[0] == SLASH then [[]] + r else [[t[0]] + r[0]] + r[1..]
  }

  /** Every segment, each after a slash. */
  function Join(segments: Segments): bytes {
    if segments == [] then
      []
    else
      Join(segments[..|segments| - 1]) + [SLASH] + segments[|segments| - 1]
  }

  predicate IsDots(segment: bytes) {
    segment == [] || segment == [DOT] || segment == [DOT, DOT]
  }

  datatype Visited = Escaped | Inside(stack: Segments)

  /** One directory step; going above the root is an escape. */
  function Visit(stack: Segments, segment: bytes): Visited {
    if segment == [] || segment == [DOT] then Inside(stack)
    else if segment == [DOT, DOT] then
      if stack == [] then Escaped else Inside(stack[..|stack| - 1])
    else Inside(stack + [segment])
  }

  /** The position of the first '#', or the length. */
  function HashAt(s: bytes): (k: nat)
    ensures k <= |s|
  {
    if s == [] || s[0] == HASH then 0 else 1 + HashAt(s[1..])
  }

  predicate Fits(path: bytes, query: bytes, fragment: bytes) {
    U16(|path|) <= PATH_MAX_LEN && U16(|query|) <= QUERY_MAX_LEN && U16(|fragment|) <= FRAGMENT_MAX_LEN
  }

  predicate Printable(s: bytes) {
    forall i :: 0 <= i < |s| ==> s[i] > SPACE
  }

  /** Check a resolved path and split what follows it into query and fragment. */
  function Finish(path: bytes, rest: bytes): Outcome {
    var query, fragment := rest[..HashAt(rest)], rest[HashAt(rest)..];
    if Fits(path, query, fragment) && Printable(rest) then Success(path, query, fragment) else ParseError
  }

  /** Walk the segments from left to right; the last one decides how the path ends. */
  function Resolve(stack: Segments, segments: Segments, stop: Stop): Outcome
    requires segments != []
    decreases |segments|
  {
    if |segments| > 1 then
      match Visit(stack, segments[0])
      case Escaped => Forbidden
      case Inside(stack') => Resolve(stack', segments[1..], stop)
    else if stop == Malformed then
      ParseError
    else
      match Visit(stack, segments[0])
      case Escaped => Forbidden
      case Inside(stack') =>
        Finish(if IsDots(segments[0]) then Join(stack') + [SLASH] else Join(stack'), stop.rest)
  }

  /** The meaning of the text `s` that follows the first '/' of a request path. */
  function Normalize(s: bytes): Outcome {
    Resume([], [], s)
  }

  /** The same from the middle: `stack` is open and `current` was already read of the current segment. */
  function Resume(stack: Segments, current: bytes, s: bytes): Outcome {
    var d := Decode(s);
    Resolve(stack, Split(current + d.text), d.stop)
  }

  lemma {:induction false} SplitAtSlash(a: bytes, b: bytes)
    requires SLASH !in a
    ensures Split(a + [SLASH] + b) == [a] + Split(b)
  {
    if a == [] {
      assert a + [SLASH] + b == [SLASH] + b;
    } else {
      SplitAtSlash(a[1..], b);
      assert a + [SLASH] + b == [a[0]] + (a[1..] + [SLASH] + b);
      assert a == [a[0]] + a[1..];
    }
  }

  lemma {:induction false} SplitNoSlash(a: bytes)
    requires SLASH !in a
    ensures Split(a) == [a]
  {
    if a != [] {
      SplitNoSlash(a[1..]);
      assert a == [a[0]] + a[1..];
    }
  }

  /** A byte that is not a slash, raw or decoded, extends the current segment. */
  lemma ResumeByte(stack: Segments, current: bytes, s: bytes, c: byte, s': bytes)
    requires Decode(s).text == [c] + Decode(s').text && Decode(s).stop == Decode(s').stop
    ensures Resume(stack, current, s) == Resume(stack, current + [c], s')
  {
    assert current + Decode(s).text == (current + [c]) + Decode(s').text;
  }

  /** A slash, raw or decoded, visits the current segment. */
  lemma ResumeSlash(stack: Segments, current: bytes, s: bytes, s': bytes)
    requires SLASH !in current
    requires Decode(s).text == [SLASH] + Decode(s').text && Decode(s).stop == Decode(s').stop
    ensures Resume(stack, current, s) ==
            match Visit(stack, current)
            case Escaped => Forbidden
            case Inside(stack') => Resume(stack', [], s')
  {
    var t := Decode(s').text;
    assert current + Decode(s).text == current + [SLASH] + t;
    SplitAtSlash(current, t);
    assert ([current] + Split(t))[1..] == Split(t);
    assert [] + t == t;
  }

  /** Nothing more to decode: the current segment is the last. */
  lemma ResumeStop(stack: Segments, current: bytes, s: bytes)
    requires SLASH !in current
    requires Decode(s).text == []
    ensures Resume(stack, current, s) == Resolve(stack, [current], Decode(s).stop)
  {
    assert current + Decode(s).text == current;
    SplitNoSlash(current);
  }
}

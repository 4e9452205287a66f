/** Records of the FastCGI Specification 1.0, sections 3.3 and 3.4: framing and name-value pairs. */
module FastCgi {
  import opened Bytes
  import HttpNames

  const HEADER_LEN: nat := 8
  const VERSION: byte := 1

  const END_REQUEST: byte := 3
  const STDOUT: byte := 6
  const STDERR: byte := 7
  const GET_VALUES_RESULT: byte := 10
  const UNKNOWN_TYPE: byte := 11

  /** Two bytes, the most significant one first. */
  function U16At(buf: bytes, i: nat): (n: nat)
    requires i + 2 <= |buf|
    ensures n < 0x1_0000
  {
    buf[i] as int * 256 + buf[i + 1]
  }

  datatype NameValue = NameValue(name: bytes, value: bytes)

  /** What a record makes the receiver do. */
  datatype Event =
    | GetValuesResult(pair: NameValue)
    | StdoutStream(requestId: nat, content: bytes)
    | StderrStream(requestId: nat, content: bytes)
    | EndRequest(requestId: nat, appStatus: nat, protocolStatus: byte)

  /** A length of one byte, or of four with the top bit set; `None` if it is cut off or too large. */
  datatype Length = NoLength | SomeLength(value: nat, size: nat)

  function ReadLength(data: bytes): (l: Length)
    ensures l.SomeLength? ==> l.size <= |data| && 1 <= l.size <= 4 && l.value <= 0xffff
  {
    if data == [] then NoLength
    else if data[0] < 0x80 then SomeLength(data[0], 1)
    else if |data| < 4 then NoLength
    else
      var n := (data[0] as int - 0x80) * 0x100_0000 + data[1] as int * 0x1_0000 + data[2] as int * 0x100 + data[3];
      if n > 0xffff then NoLength else SomeLength(n, 4)
  }

  /** The pairs of a record; whatever does not make up a whole pair is ignored together with what follows. */
  function DecodePairs(data: bytes): seq<NameValue> {
    match ReadLength(data)
    case NoLength => []
    case SomeLength(name, a) =>
      (match ReadLength(data[a..])
       case NoLength => []
       case SomeLength(value, b) =>
         if |data| < a + b + name + value then []
         else
           [NameValue(data[a + b..a + b + name], data[a + b + name..a + b + name + value])]
           + DecodePairs(data[a + b + name + value..]))
  }

  function WriteLength(n: nat): (r: bytes)
    requires n < 0x1_0000
    ensures |r| == if n <= 127 then 1 else 4
  {
    if n <= 127 then [n] else [0x80, 0, n / 256, n % 256]
  }

  predicate Small(p: NameValue) {
    |p.name| < 0x1_0000 && |p.value| < 0x1_0000
  }

  function EncodePair(p: NameValue): bytes
    requires Small(p)
  {
    WriteLength(|p.name|) + WriteLength(|p.value|) + p.name + p.value
  }

  function EncodePairs(pairs: seq<NameValue>): bytes
    requires forall p <- pairs :: Small(p)
  {
    if pairs == [] then [] else EncodePairs(pairs[..|pairs| - 1]) + EncodePair(pairs[|pairs| - 1])
  }

  /** A written length is read back, whatever follows it. */
  lemma LengthRoundTrip(n: nat, rest: bytes)
    requires n < 0x1_0000
    ensures var w := WriteLength(n); ReadLength(w + rest) == SomeLength(n, |w|) && (w + rest)[|w|..] == rest
  {
  }

  lemma FirstPair(data: bytes, name: nat, a: nat, value: nat, b: nat)
    requires ReadLength(data) == SomeLength(name, a) && a <= |data|
    requires ReadLength(data[a..]) == SomeLength(value, b) && a + b + name + value <= |data|
    ensures DecodePairs(data)
            == [NameValue(data[a + b..a + b + name], data[a + b + name..a + b + name + value])]
               + DecodePairs(data[a + b + name + value..])
  {
    hide ReadLength;
  }

  lemma Parts(s: bytes, a: bytes, b: bytes, c: bytes, d: bytes, e: bytes)
    requires s == a + b + c + d + e
    ensures var i, j, k := |a| + |b|, |a| + |b| + |c|, |a| + |b| + |c| + |d|;
            && k <= |s| && s == a + s[|a|..] && s[|a|..] == b + s[i..]
            && s[i..j] == c && s[j..k] == d && s[k..] == e
  {
  }

  lemma PairReads(data: bytes, p: NameValue, a: nat, b: nat, rest: bytes)
    requires ReadLength(data) == SomeLength(|p.name|, a) && a <= |data|
    requires ReadLength(data[a..]) == SomeLength(|p.value|, b)
    requires var i, j, k := a + b, a + b + |p.name|, a + b + |p.name| + |p.value|;
             k <= |data| && data[i..j] == p.name && data[j..k] == p.value && data[k..] == rest
    ensures DecodePairs(data) == [p] + DecodePairs(rest)
  {
    hide ReadLength, DecodePairs;
    FirstPair(data, |p.name|, a, |p.value|, b);
  }

  /** A written pair is the first one read, and reading goes on behind it. */
  lemma PairRoundTrip(p: NameValue, rest: bytes)
    requires Small(p)
    ensures DecodePairs(EncodePair(p) + rest) == [p] + DecodePairs(rest)
  {
    hide ReadLength, WriteLength, DecodePairs, Small;
    assert |p.name| < 0x1_0000 && |p.value| < 0x1_0000 by {
      SmallLengths(p);
    }
    var data := EncodePair(p) + rest;
    var a, b := WriteLength(|p.name|), WriteLength(|p.value|);
    Parts(data, a, b, p.name, p.value, rest);
    hide EncodePair;
    LengthRoundTrip(|p.name|, data[|a|..]);
    LengthRoundTrip(|p.value|, data[|a| + |b|..]);
    PairReads(data, p, |a|, |b|, rest);
  }

  lemma SmallLengths(p: NameValue)
    requires Small(p)
    ensures |p.name| < 0x1_0000 && |p.value| < 0x1_0000
  {
  }

  /** Decoding undoes encoding for every list of pairs. */
  lemma {:induction false} PairsRoundTrip(pairs: seq<NameValue>, rest: bytes)
    requires forall p <- pairs :: Small(p)
    ensures DecodePairs(EncodePairs(pairs) + rest) == pairs + DecodePairs(rest)
    decreases |pairs|
  {
    hide DecodePairs, EncodePair;
    if pairs == [] {
      assert EncodePairs(pairs) + rest == rest;
    } else {
      var n := |pairs| - 1;
      var last := pairs[n];
      assert EncodePairs(pairs) == EncodePairs(pairs[..n]) + EncodePair(last);
      PairRoundTrip(last, rest);
      PairsRoundTrip(pairs[..n], EncodePair(last) + rest);
      hide EncodePairs, Small;
      assert EncodePairs(pairs[..n]) + EncodePair(last) + rest == EncodePairs(pairs[..n]) + (EncodePair(last) + rest);
      assert pairs == pairs[..n] + [last];
      assert pairs[..n] + ([last] + DecodePairs(rest)) == pairs[..n] + [last] + DecodePairs(rest);
    }
  }

  /** How the name of a request header becomes that of an environment variable. */
  function Upper(c: byte): byte {
    if 0x61 <= c <= 0x7a then c - 0x20 else if c == MINUS then UNDERSCORE else c
  }

  function UpperName(name: bytes): (r: bytes)
    ensures |r| == |name|
  {
    seq(|name|, i requires 0 <= i < |name| => Upper(name[i]))
  }

  /** The byte of a variable's name that stands for one of a header's name. */
  predicate Becomes(c: byte, u: byte) {
    if 'a' <= c as char <= 'z' then u - 'A' as int == c - 'a' as int
    else if c as char == '-' then u as char == '_'
    else u == c
  }

  /**
   * The variable of a header: `HTTP_` if it is asked for, and then each letter as a capital, an underscore for each
   * hyphen, and all else as it is.
   */
  ghost predicate IsVariable(name: bytes, prepend: bool, variable: bytes) {
    var n := if prepend then 5 else 0;
    && |variable| == n + |name| && (prepend ==> variable[..5] == Ascii("HTTP_"))
    && forall i :: 0 <= i < |name| ==> Becomes(name[i], variable[n + i])
  }

  lemma UpperIs(c: byte)
    ensures Becomes(c, Upper(c)) && !('a' <= Upper(c) as char <= 'z') && Upper(c) as char != '-'
  {
  }

  lemma VariableIs(name: bytes, prepend: bool)
    ensures IsVariable(name, prepend, VariableName(name, prepend, true))
    ensures VariableName(name, prepend, false) == (if prepend then Ascii("HTTP_") else []) + name
  {
    assert Ascii("HTTP_") == HTTP;
    hide Ascii, Upper, Becomes;
    var n, v := if prepend then 5 else 0, VariableName(name, prepend, true);
    forall i | 0 <= i < |name|
      ensures Becomes(name[i], v[n + i])
    {
      UpperIs(name[i]);
      assert v[n + i] == UpperName(name)[i];
    }
  }

  /** No letter of a variable is small, and there is no hyphen in it. */
  lemma VariableRaised(name: bytes, prepend: bool, i: nat)
    requires (if prepend then 5 else 0) <= i < |name| + if prepend then 5 else 0
    ensures var c := VariableName(name, prepend, true)[i] as char; !('a' <= c <= 'z') && c != '-'
  {
    hide Ascii, Upper;
    var n := if prepend then 5 else 0;
    UpperIs(name[i - n]);
    assert VariableName(name, prepend, true)[i] == UpperName(name)[i - n];
  }

  /** Names that differ only in the case of their letters have the same variable. */
  lemma SameVariable(a: bytes, b: bytes, prepend: bool)
    requires HttpNames.IsSpelling(a, b)
    ensures VariableName(a, prepend, true) == VariableName(b, prepend, true)
  {
    forall i | 0 <= i < |a|
      ensures Upper(a[i]) == Upper(b[i])
    {
      assert HttpNames.SameLetter(a[i], b[i]);
    }
    assert UpperName(a) == UpperName(b);
  }

  const HTTP: bytes := [0x48, 0x54, 0x54, 0x50, UNDERSCORE]

  function VariableName(name: bytes, prepend: bool, upper: bool): (r: bytes)
    ensures |r| == |name| + if prepend then 5 else 0
  {
    (if prepend then HTTP else []) + if upper then UpperName(name) else name
  }

  /** A record header. */
  function Header(kind: byte, requestId: nat, contentLength: nat, padding: byte): (h: bytes)
    requires requestId < 0x1_0000 && contentLength < 0x1_0000
    ensures |h| == HEADER_LEN
  {
    [VERSION, kind, requestId / 256, requestId % 256, contentLength / 256, contentLength % 256, padding, 0]
  }

  function Padding(length: nat): (p: byte)
    ensures p < 8 && (length + p) % 8 == 0
  {
    if length % 8 == 0 then 0 else 8 - length % 8
  }
}

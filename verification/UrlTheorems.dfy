/**
 What the normaliser is for: its results are canonical, it answers Forbidden exactly for
 paths that climb above the root, and it undoes the encoder exactly on canonical paths.
 */
module UrlTheorems {
  import opened Bytes
  import opened UrlPath
  import opened UrlEncoding
  import HttpNames

  /** No segment but the last is empty, and none is "." or "..". */
  predicate Canonical(p: bytes) {
    p != [] && p[0] == SLASH &&
    var segments := Split(p[1..]);
    forall k :: 0 <= k < |segments| ==> !IsDots(segments[k]) || (k == |segments| - 1 && segments[k] == [])
  }

  ghost predicate SlashFree(segments: Segments) {
    forall k :: 0 <= k < |segments| ==> SLASH !in segments[k]
  }

  ghost predicate Names(stack: Segments) {
    SlashFree(stack) && forall k :: 0 <= k < |stack| ==> !IsDots(stack[k])
  }

  lemma {:induction false} SplitIsSlashFree(t: bytes)
    ensures SlashFree(Split(t))
  {
    if t != [] {
      SplitIsSlashFree(t[1..]);
    }
  }

  lemma {:induction false} JoinFirst(segments: Segments)
    requires segments != []
    ensures Join(segments) == [SLASH] + segments[0] + Join(segments[1..])
  {
    if |segments| > 1 {
      var front := segments[..|segments| - 1];
      JoinFirst(front);
      assert segments[1..][..|segments| - 2] == front[1..];
      assert segments[1..][|segments| - 2] == segments[|segments| - 1];
    }
  }

  lemma SameTail(a: bytes, b: bytes, t: bytes)
    requires t != [] && [SLASH] + a + b == [SLASH] + t[1..]
    ensures [SLASH] + ([t[0]] + a) + b == [SLASH] + t
  {
    assert a + b == ([SLASH] + a + b)[1..] == t[1..];
    assert [SLASH] + ([t[0]] + a) + b == [SLASH] + [t[0]] + (a + b);
  }

  /** Splitting and joining undo each other. */
  lemma {:induction false} JoinSplit(t: bytes)
    ensures Join(Split(t)) == [SLASH] + t
  {
    var segments := Split(t);
    JoinFirst(segments);
    if t == [] {
      assert segments == [[]] && segments[1..] == [];
    } else {
      var rest := Split(t[1..]);
      JoinSplit(t[1..]);
      if t[0] == SLASH {
        assert segments[1..] == rest;
        assert [SLASH] + [] + ([SLASH] + t[1..]) == [SLASH] + t;
      } else {
        JoinFirst(rest);
        SameTail(rest[0], Join(rest[1..]), t);
        assert segments[1..] == rest[1..];
      }
    }
  }

  lemma {:induction false} SplitJoin(segments: Segments)
    requires segments != [] && SlashFree(segments)
    ensures Join(segments) != [] && Join(segments)[0] == SLASH
    ensures Split(Join(segments)[1..]) == segments
  {
    JoinFirst(segments);
    var rest := segments[1..];
    assert Join(segments)[1..] == segments[0] + Join(rest);
    if rest == [] {
      assert segments[0] + Join(rest) == segments[0];
      SplitNoSlash(segments[0]);
    } else {
      SplitJoin(rest);
      assert Join(rest) == [SLASH] + Join(rest)[1..];
      assert segments[0] + Join(rest) == segments[0] + [SLASH] + Join(rest)[1..];
      SplitAtSlash(segments[0], Join(rest)[1..]);
      assert segments == [segments[0]] + rest;
    }
  }

  /** Whatever the walk resolves to is canonical. */
  lemma {:induction false} ResolveCanonical(stack: Segments, segments: Segments, stop: Stop)
    requires segments != [] && Names(stack) && SlashFree(segments)
    ensures Resolve(stack, segments, stop).Success? ==> Canonical(Resolve(stack, segments, stop).path)
    decreases |segments|
  {
    match Visit(stack, segments[0])
    case Escaped =>
    case Inside(stack') =>
      assert Names(stack');
      if |segments| > 1 {
        ResolveCanonical(stack', segments[1..], stop);
      } else if IsDots(segments[0]) {
        var closed := stack' + [[]];
        assert closed[..|stack'|] == stack';
        assert Join(closed) == Join(stack') + [SLASH];
        SplitJoin(closed);
      } else {
        SplitJoin(stack');
      }
  }

  /** Every accepted path is canonical, whatever was sent: no doubled slash, no "." or "..", raw or escaped. */
  lemma NormalizeCanonical(s: bytes)
    ensures Normalize(s).Success? ==> Canonical(Normalize(s).path)
  {
    var t := [] + Decode(s).text;
    SplitIsSlashFree(t);
    ResolveCanonical([], Split(t), Decode(s).stop);
  }

  /** The path ends with a segment `.` or `..`. */
  predicate EndsInDots(p: bytes) {
    || (|p| >= 2 && p[|p| - 2..] == [SLASH, DOT])
    || (|p| >= 3 && p[|p| - 3..] == [SLASH, DOT, DOT])
  }

  lemma EndOfJoined(front: bytes, last: bytes)
    requires SLASH !in last
    ensures EndsInDots(front + [SLASH] + last) <==> last == [DOT] || last == [DOT, DOT]
  {
    var p := front + [SLASH] + last;
    assert forall i :: 0 <= i < |last| ==> p[|front| + 1 + i] == last[i];
    if EndsInDots(p) {
      var n := if |p| >= 2 && p[|p| - 2..] == [SLASH, DOT] then 1 else 2;
      assert p[|p| - n - 1] == p[|p| - n - 1..][0] == SLASH;
      assert |last| <= n;
      assert p[|p| - n..] == p[|p| - n - 1..][1..];
      assert last == p[|p| - n..] by {
        assert p[|p| - 1] == p[|p| - n - 1..][n] == DOT && p[|p| - n] == p[|p| - n - 1..][1] == DOT;
        assert p[|front|] == SLASH;
      }
    }
    if last == [DOT] {
      assert p[|p| - 2..] == [SLASH, DOT];
    } else if last == [DOT, DOT] {
      assert p[|p| - 3..] == [SLASH, DOT, DOT];
    }
  }

  /** The last segment is what a path ends with. */
  lemma LastOfSplit(t: bytes)
    ensures var segments := Split(t);
            var last := segments[|segments| - 1];
            EndsInDots([SLASH] + t) <==> last == [DOT] || last == [DOT, DOT]
  {
    hide EndsInDots;
    var segments := Split(t);
    JoinSplit(t);
    SplitIsSlashFree(t);
    hide Split;
    EndOfJoined(Join(segments[..|segments| - 1]), segments[|segments| - 1]);
  }

  /** All segments of a text but the last are segments of any longer text. */
  lemma {:induction false} SplitPrefix(a: bytes, b: bytes)
    ensures var s, t := Split(a), Split(a + b);
            |s| <= |t| && forall k :: 0 <= k < |s| - 1 ==> s[k] == t[k]
  {
    if a != [] {
      assert (a + b)[1..] == a[1..] + b;
      SplitPrefix(a[1..], b);
    }
  }

  lemma {:induction false} UpToNulIsPrefix(p: bytes)
    ensures HttpNames.UpToNul(p) <= p
    ensures p != [] && p[0] != 0 ==> HttpNames.UpToNul(p) != [] && HttpNames.UpToNul(p)[0] == p[0]
  {
    if p != [] && p[0] != 0 {
      UpToNulIsPrefix(p[1..]);
    }
  }

  /** A front part of a canonical path is canonical if and only if it does not end in dots. */
  lemma PrefixCanonical(p: bytes, c: bytes)
    requires Canonical(p) && c <= p && c != []
    ensures Canonical(c) <==> !EndsInDots(c)
  {
    hide Split, EndsInDots;
    var t := c[1..];
    assert c == [SLASH] + t && p[1..] == t + p[|c|..];
    SplitPrefix(t, p[|c|..]);
    LastOfSplit(t);
  }

  /**
   * The file system reads an accepted path as a C string, up to its first NUL. What it sees is canonical if and
   * only if that part does not end in a segment of dots.
   */
  lemma SeenCanonical(s: bytes)
    requires Normalize(s).Success?
    ensures var seen := HttpNames.UpToNul(Normalize(s).path); Canonical(seen) <==> !EndsInDots(seen)
    ensures 0 !in Normalize(s).path ==> HttpNames.UpToNul(Normalize(s).path) == Normalize(s).path
  {
    hide Normalize, EndsInDots;
    NormalizeCanonical(s);
    var p := Normalize(s).path;
    UpToNulIsPrefix(p);
    PrefixCanonical(p, HttpNames.UpToNul(p));
    if 0 !in p {
      NoNul(p);
    }
  }

  lemma {:induction false} NoNul(p: bytes)
    requires 0 !in p
    ensures HttpNames.UpToNul(p) == p
  {
    if p != [] {
      NoNul(p[1..]);
    }
  }

  /** For example, `/..%00` is accepted, and seen as `/..`. */
  lemma DotsBeforeNul()
    ensures var s := [DOT, DOT, PERCENT, 0x30, 0x30];
            && Normalize(s) == UrlPath.Success([SLASH, DOT, DOT, 0], [], [])
            && HttpNames.UpToNul(Normalize(s).path) == [SLASH, DOT, DOT]
            && !Canonical([SLASH, DOT, DOT])
  {
    hide Normalize, HttpNames.UpToNul, Canonical;
    NulIsAccepted();
    NulIsTheEnd();
    DotsAreNotCanonical();
  }

  lemma NulIsAccepted()
    ensures Normalize([DOT, DOT, PERCENT, 0x30, 0x30]) == UrlPath.Success([SLASH, DOT, DOT, 0], [], [])
  {
    var s: bytes := [DOT, DOT, PERCENT, 0x30, 0x30];
    var name: bytes := [DOT, DOT, 0];
    NameWithNul();
    SplitNoSlash(name);
    assert [] + name == name && [] + [name] == [name];
    hide Decode, Split, Join, Finish;
    OneSegment(name);
    assert Join([name]) == [SLASH, DOT, DOT, 0];
    assert Finish([SLASH, DOT, DOT, 0], []) == UrlPath.Success([SLASH, DOT, DOT, 0], [], []) by {
      PathAlone([SLASH, DOT, DOT, 0]);
    }
  }

  lemma OneSegment(name: bytes)
    ensures Join([name]) == [SLASH] + name
  {
    assert [name][..0] + [name] == [name];
  }

  lemma PathAlone(p: bytes)
    requires |p| < 100
    ensures Finish(p, []) == UrlPath.Success(p, [], [])
  {
    var rest: bytes := [];
    assert rest[..0] == [] && rest[0..] == [];
  }

  lemma NulIsTheEnd()
    ensures HttpNames.UpToNul([SLASH, DOT, DOT, 0]) == [SLASH, DOT, DOT]
  {
    assert [SLASH, DOT, DOT, 0][1..] == [DOT, DOT, 0] && [DOT, DOT, 0][1..] == [DOT, 0] && [DOT, 0][1..] == [0];
    assert HttpNames.UpToNul([0]) == [];
    assert HttpNames.UpToNul([DOT, 0]) == [DOT];
    assert HttpNames.UpToNul([DOT, DOT, 0]) == [DOT, DOT];
  }

  lemma DotsAreNotCanonical()
    ensures !Canonical([SLASH, DOT, DOT])
  {
    SplitNoSlash([DOT, DOT]);
    assert [SLASH, DOT, DOT][1..] == [DOT, DOT];
    var segments := Split([DOT, DOT]);
    assert segments[0] == [DOT, DOT] && IsDots(segments[0]);
  }

  lemma NameWithNul()
    ensures Decode([DOT, DOT, PERCENT, 0x30, 0x30]) == Decoded([DOT, DOT, 0], Tail([]))
  {
    var s: bytes := [DOT, DOT, PERCENT, 0x30, 0x30];
    assert s[1..] == [DOT, PERCENT, 0x30, 0x30] && s[1..][1..] == [PERCENT, 0x30, 0x30] && s[1..][1..][3..] == [];
    assert Decode([]) == Decoded([], Tail([]));
    assert Decode(s[1..][1..]) == Decoded([0], Tail([]));
    assert Decode(s[1..]) == Decoded([DOT, 0], Tail([]));
  }

  /** Names not yet cancelled by a ".." after the first `k` segments; negative above the root. */
  function Depth(segments: Segments, k: nat): int
    requires k <= |segments|
  {
    if k == 0 then 0
    else Depth(segments, k - 1) +
         (if segments[k - 1] == [DOT, DOT] then -1 else if IsDots(segments[k - 1]) then 0 else 1)
  }

  lemma {:induction false} DepthSkip(segments: Segments, k: nat)
    requires 1 <= k <= |segments|
    ensures Depth(segments, k) == Depth(segments, 1) + Depth(segments[1..], k - 1)
  {
    if k > 1 {
      DepthSkip(segments, k - 1);
      assert segments[1..][k - 2] == segments[k - 1];
    }
  }

  /** The segments that are visited: an unfinished one is not. */
  function Visited(segments: Segments, stop: Stop): nat
    requires segments != []
  {
    if stop == Malformed then |segments| - 1 else |segments|
  }

  /** Some prefix of the first `n` segments takes away more names than `height` and itself hold. */
  ghost predicate Climbs(height: nat, segments: Segments, n: nat)
    requires n <= |segments|
  {
    exists k :: 0 <= k <= n && height + Depth(segments, k) < 0
  }

  lemma ClimbsFirst(height: nat, height': int, segments: Segments, n: nat)
    requires 1 <= n <= |segments| && height' == height + Depth(segments, 1)
    ensures height' < 0 ==> Climbs(height, segments, n)
    ensures height' >= 0 ==> Climbs(height, segments, n) == Climbs(height', segments[1..], n - 1)
  {
    forall k | 1 <= k <= n
      ensures Depth(segments, k) == Depth(segments, 1) + Depth(segments[1..], k - 1)
    {
      DepthSkip(segments, k);
    }
    if height' >= 0 && Climbs(height', segments[1..], n - 1) {
      var k :| 0 <= k <= n - 1 && height' + Depth(segments[1..], k) < 0;
      assert height + Depth(segments, k + 1) < 0;
    }
    if height' >= 0 && Climbs(height, segments, n) {
      var k :| 0 <= k <= n && height + Depth(segments, k) < 0;
      assert height' + Depth(segments[1..], k - 1) < 0;
    }
  }

  lemma {:induction false} ResolveForbidden(stack: Segments, segments: Segments, stop: Stop)
    requires segments != []
    ensures Resolve(stack, segments, stop) == Forbidden <==> Climbs(|stack|, segments, Visited(segments, stop))
    decreases |segments|
  {
    var n := Visited(segments, stop);
    if n > 0 {
      assert Depth(segments, 1) == Depth(segments, 0) +
             if segments[0] == [DOT, DOT] then -1 else if IsDots(segments[0]) then 0 else 1;
      ClimbsFirst(|stack|, |stack| + Depth(segments, 1), segments, n);
      if Visit(stack, segments[0]).Inside? {
        assert |Visit(stack, segments[0]).stack| == |stack| + Depth(segments, 1);
      }
    }
    if |segments| > 1 && Visit(stack, segments[0]).Inside? {
      ResolveForbidden(Visit(stack, segments[0]).stack, segments[1..], stop);
    }
  }

  /** A path is forbidden if and only if some prefix of its decoded segments climbs above the root. */
  lemma ForbiddenIff(s: bytes)
    ensures var segments, stop := Split(Decode(s).text), Decode(s).stop;
            Normalize(s) == Forbidden <==> exists k :: 0 <= k <= Visited(segments, stop) && Depth(segments, k) < 0
  {
    var segments, stop := Split(Decode(s).text), Decode(s).stop;
    assert [] + Decode(s).text == Decode(s).text;
    ResolveForbidden([], segments, stop);
    if k :| 0 <= k <= Visited(segments, stop) && Depth(segments, k) < 0 {
      assert 0 + Depth(segments, k) < 0;
    }
  }

  lemma {:induction false} ResolveNames(stack: Segments, segments: Segments, rest: bytes)
    requires segments != []
    requires forall k :: 0 <= k < |segments| ==> !IsDots(segments[k]) || (k == |segments| - 1 && segments[k] == [])
    ensures Resolve(stack, segments, Tail(rest)) == Finish(Join(stack + segments), rest)
    decreases |segments|
  {
    if |segments| > 1 {
      ResolveNames(stack + [segments[0]], segments[1..], rest);
      assert stack + [segments[0]] + segments[1..] == stack + segments;
    } else {
      assert stack + segments == stack + [segments[0]];
      assert (stack + segments)[..|stack|] == stack;
      assert Join(stack) + [SLASH] + [] == Join(stack) + [SLASH];
    }
  }

  lemma {:induction false} DecodeEncode(t: bytes)
    ensures Decode(Encode(t)) == Decoded(t, Tail([]))
  {
    if t != [] {
      DecodeEncode(t[1..]);
      var e := EncodeByte(t[0]);
      assert Encode(t)[|e|..] == Encode(t[1..]);
      assert t == [t[0]] + t[1..];
    }
  }

  /** The parser undoes the encoder on a path if and only if the path is canonical and not too long. */
  /** How a client may write a byte: as itself, or as an escape with digits of either case. */
  datatype Written = Plain(c: byte) | Escape(high: byte, low: byte)

  ghost predicate Spells(w: Written, c: byte) {
    match w
    case Plain(p) => p == c && c >= SPACE && c != PERCENT && c != QUESTION && c != HASH
    case Escape(high, low) => IsHexDigit(high, c / 16) && IsHexDigit(low, c % 16)
  }

  function TextOfOne(w: Written): bytes {
    match w
    case Plain(p) => [p]
    case Escape(high, low) => [PERCENT, high, low]
  }

  function TextOf(ws: seq<Written>): bytes {
    if ws == [] then []
    else TextOfOne(ws[0]) + TextOf(ws[1..])
  }

  lemma SpelledFirst(w: Written, c: byte, rest: bytes)
    requires Spells(w, c)
    ensures Decode(TextOfOne(w) + rest) == Decode(rest).(text := [c] + Decode(rest).text)
  {
    match w
    case Plain(p) => assert ([p] + rest)[1..] == rest;
    case Escape(high, low) =>
      assert ([PERCENT, high, low] + rest)[3..] == rest;
      HexValueIs(high, c / 16);
      HexValueIs(low, c % 16);
  }

  /** However the bytes of a text are written, with escapes in digits of either case or as they are, they are decoded. */
  lemma {:induction false} DecodeSpelled(ws: seq<Written>, t: bytes)
    requires |ws| == |t| && forall i :: 0 <= i < |t| ==> Spells(ws[i], t[i])
    ensures Decode(TextOf(ws)) == Decoded(t, Tail([]))
  {
    hide Spells, Decode;
    if ws != [] {
      DecodeSpelled(ws[1..], t[1..]);
      SpelledFirst(ws[0], t[0], TextOf(ws[1..]));
      assert [t[0]] + t[1..] == t;
    } else {
      NothingDecoded();
    }
  }

  lemma NothingDecoded()
    ensures Decode([]) == Decoded([], Tail([]))
  {
  }

  /** So a path means the same however it is written: what its bytes mean. */
  lemma NormalizeSpelled(ws: seq<Written>, t: bytes)
    requires |ws| == |t| && forall i :: 0 <= i < |t| ==> Spells(ws[i], t[i])
    ensures Normalize(TextOf(ws)) == Resolve([], Split(t), Tail([]))
  {
    hide Spells, Decode, Resolve, Split;
    DecodeSpelled(ws, t);
    assert [] + t == t;
  }

  /** For example, `/a%2Fb` is `/a/b`. */
  lemma EscapedSlash()
    ensures Normalize([0x61, PERCENT, 0x32, 0x46, 0x62]) == UrlPath.Success([SLASH, 0x61, SLASH, 0x62], [], [])
  {
    var t: bytes, ws := [0x61, SLASH, 0x62], [Plain(0x61), Escape(0x32, 0x46), Plain(0x62)];
    assert Spells(ws[1], t[1]);
    TextOfThree(ws);
    assert TextOf(ws) == [0x61, PERCENT, 0x32, 0x46, 0x62];
    hide TextOf, Resolve, Split, Normalize;
    NormalizeSpelled(ws, t);
    TwoDirectories();
  }

  lemma TextOfThree(ws: seq<Written>)
    requires |ws| == 3
    ensures TextOf(ws) == TextOfOne(ws[0]) + (TextOfOne(ws[1]) + TextOfOne(ws[2]))
  {
    assert ws[2..][1..] == [] && ws[1..][1..] == ws[2..];
    assert TextOf(ws[2..]) == TextOfOne(ws[2]) + TextOf([]) == TextOfOne(ws[2]);
    assert TextOf(ws[1..]) == TextOfOne(ws[1]) + TextOf(ws[2..]);
  }

  lemma TwoDirectories()
    ensures Resolve([], Split([0x61, SLASH, 0x62]), Tail([])) == UrlPath.Success([SLASH, 0x61, SLASH, 0x62], [], [])
  {
    var a, b: bytes := [0x61], [0x62];
    SplitAtSlash(a, b);
    SplitNoSlash(b);
    assert a + [SLASH] + b == [0x61, SLASH, 0x62] && [a] + [b] == [a, b];
    assert [a, b][1..] == [b] && [] + [a] == [a] && [a] + [b] == [a, b];
    hide Split, Finish, Join;
    assert Join([a, b]) == [SLASH, 0x61, SLASH, 0x62] by {
      OneSegment(a);
      assert [a, b][..1] == [a];
      JoinOfTwo(a, b);
    }
    PathAlone([SLASH, 0x61, SLASH, 0x62]);
  }

  lemma JoinOfTwo(a: bytes, b: bytes)
    ensures Join([a, b]) == Join([a]) + [SLASH] + b
  {
    assert [a, b][..1] == [a];
  }

  lemma EncodedIsAccepted(p: bytes)
    requires p != [] && p[0] == SLASH
    ensures Encode(p)[..1] == [SLASH]
    ensures Normalize(Encode(p)[1..]) == Success(p, [], []) <==> Canonical(p) && Fits(p, [], [])
  {
    var t := p[1..];
    assert Encode(p)[1..] == Encode(t);
    DecodeEncode(t);
    assert [] + t == t;
    JoinSplit(t);
    assert p == [SLASH] + t;
    var rest: bytes := [];
    assert rest[..0] == [] && rest[0..] == [];
    if Canonical(p) {
      ResolveNames([], Split(t), []);
      assert [] + Split(t) == Split(t);
    }
    NormalizeCanonical(Encode(t));
    if Normalize(Encode(t)) == Success(p, [], []) {
      AcceptedFits(Encode(t));
    }
  }

  lemma EncodeThenNormalize(p: bytes)
    requires p != [] && p[0] == SLASH
    ensures Encode(p)[..1] == [SLASH]
    ensures Normalize(Encode(p)[1..]) == Success(p, [], []) <==> Canonical(p) && |p| % 65536 <= 4096
  {
    hide Encode, Normalize, Canonical, Fits;
    EncodedIsAccepted(p);
    LengthsFit(p, [], []);
  }

  /** The limits on path, query and fragment. */
  lemma LengthsFit(p: bytes, q: bytes, f: bytes)
    ensures Fits(p, q, f) <==> |p| % 65536 <= 4096 && |q| % 65536 <= 4096 && |f| % 65536 <= 4096
  {
  }

  lemma {:induction false} ResolveFits(stack: Segments, segments: Segments, stop: Stop)
    requires segments != []
    ensures var r := Resolve(stack, segments, stop); r.Success? ==> Fits(r.path, r.query, r.fragment)
    decreases |segments|
  {
    match Visit(stack, segments[0])
    case Escaped =>
    case Inside(stack') =>
      if |segments| > 1 {
        ResolveFits(stack', segments[1..], stop);
      }
  }

  lemma AcceptedFits(s: bytes)
    ensures Normalize(s).Success? ==> Fits(Normalize(s).path, Normalize(s).query, Normalize(s).fragment)
  {
    ResolveFits([], Split([] + Decode(s).text), Decode(s).stop);
  }

  /** Normalising is idempotent: an accepted path, encoded and parsed again, comes back. */
  lemma NormalizeTwice(s: bytes)
    requires Normalize(s).Success?
    ensures var p := Normalize(s).path;
            p != [] && p[0] == SLASH && Normalize(Encode(p)[1..]) == Success(p, [], [])
  {
    NormalizeCanonical(s);
    AcceptedFits(s);
    EncodeThenNormalize(Normalize(s).path);
  }
}

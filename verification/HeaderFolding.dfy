/** Folding: a long value is broken at its spaces, so that no line is longer than it must be. */
module HeaderFolding {
  import opened Bytes
  import opened HttpNames
  import opened HeaderTable
  import opened HeaderValues
  import HeaderParsing
  import opened HeaderRoundTrip

  /** A line keeps within the width unless it has no space to be broken at. */
  predicate Fits(prefix: nat, line: bytes, width: nat) {
    prefix + |line| <= width || forall i :: 0 <= i < |line| - 1 ==> line[i] != SPACE
  }

  /** All lines of a value fit: the first comes behind the name, the others behind a tab. */
  predicate AllFit(prefix: nat, lines: seq<bytes>, width: nat) {
    forall k :: 0 <= k < |lines| ==> Fits(if k == 0 then prefix else 1, lines[k], width)
  }

  /** Lines, each with the break behind it. */
  function Broken(lines: seq<bytes>): bytes {
    if lines == [] then [] else Broken(lines[..|lines| - 1]) + lines[|lines| - 1] + BREAK
  }

  /** The lines of one folded value. */
  ghost predicate IsFolding(f: bytes, lines: seq<bytes>) {
    lines != [] && f == Broken(lines[..|lines| - 1]) + lines[|lines| - 1]
  }

  /** Where a break begins does not depend on what follows, unless that could complete one. */
  lemma BreakBefore(x: bytes, y: bytes)
    requires x != [] && y != [] && y[0] != LF && y[0] != TAB
    ensures BreakHere(x + y) == BreakHere(x)
  {
    assert |x| == 1 ==> (x + y)[1] == y[0];
    assert |x| == 2 ==> (x + y)[2] == y[0];
  }

  lemma UnfoldStep(x: bytes, y: bytes)
    requires x != [] && y != [] && y[0] != LF && y[0] != TAB
    ensures var k := if BreakHere(x) then 3 else 1;
            k <= |x| && Unfold(x + y) == [if BreakHere(x) then SPACE else x[0]] + Unfold(x[k..] + y)
  {
    BreakBefore(x, y);
    var k := if BreakHere(x) then 3 else 1;
    assert (x + y)[k..] == x[k..] + y;
  }

  /** A space and a break with a tab unfold to the same. */
  lemma {:induction false} UnfoldBreak(x: bytes, y: bytes)
    ensures Unfold(x + (BREAK + y)) == Unfold(x + ([SPACE] + y))
    decreases |x|
  {
    if x == [] {
      assert x + (BREAK + y) == BREAK + y && x + ([SPACE] + y) == [SPACE] + y;
      assert BreakHere(BREAK + y) && (BREAK + y)[3..] == y;
      assert !BreakHere([SPACE] + y) && ([SPACE] + y)[1..] == y;
    } else {
      hide Unfold;
      UnfoldStep(x, BREAK + y);
      UnfoldStep(x, [SPACE] + y);
      UnfoldBreak(x[if BreakHere(x) then 3 else 1..], y);
    }
  }

  lemma {:induction false} UnfoldPlain(v: bytes)
    requires forall i :: 0 <= i < |v| ==> v[i] >= SPACE
    ensures Unfold(v) == v
  {
    if v != [] {
      UnfoldPlain(v[1..]);
    }
  }

  lemma {:induction false} TidyIsPlain(v: bytes, gap: bool)
    requires TidyFrom(v, gap)
    ensures forall i :: 0 <= i < |v| ==> v[i] >= SPACE
  {
    if v != [] {
      TidyIsPlain(v[1..], v[0] == SPACE);
    }
  }

  /** `f` holds the lines before `begin`, each with its break, and together with the rest it is still the value. */
  ghost predicate Emitted(prefix: nat, value: bytes, width: nat, f: bytes, lines: seq<bytes>, begin: nat) {
    && begin <= |value| && f == Broken(lines) && AllFit(prefix, lines, width)
    && Unfold(f + value[begin..]) == value
  }

  lemma NothingEmitted(prefix: nat, value: bytes, width: nat)
    requires Tidy(value)
    ensures Emitted(prefix, value, width, [], [], 0)
  {
    TidyIsPlain(value, true);
    UnfoldPlain(value);
    assert [] + value[0..] == value;
  }

  /** The line from `begin` to `end` is no wider than it must be. */
  ghost predicate Narrow(value: bytes, begin: nat, end: nat, prefix: nat, width: nat) {
    begin <= end <= |value| &&
    (prefix + end - 1 - begin < width || forall i :: begin <= i < end - 1 ==> value[i] != SPACE)
  }

  lemma AllFitSnoc(prefix: nat, lines: seq<bytes>, value: bytes, begin: nat, end: nat, width: nat)
    requires AllFit(prefix, lines, width) && Narrow(value, begin, end, if lines == [] then prefix else 1, width)
    ensures AllFit(prefix, lines + [value[begin..end]], width)
  {
  }

  lemma LineEmitted(prefix: nat, value: bytes, width: nat, f: bytes, lines: seq<bytes>, begin: nat, space: nat)
    requires Emitted(prefix, value, width, f, lines, begin) && space < |value| && value[space] == SPACE
    requires Narrow(value, begin, space, if lines == [] then prefix else 1, width)
    ensures Emitted(prefix, value, width, f + value[begin..space] + BREAK, lines + [value[begin..space]], space + 1)
  {
    hide Unfold, AllFit;
    var line, rest := value[begin..space], value[space + 1..];
    assert value[begin..] == line + ([SPACE] + rest);
    assert f + value[begin..] == (f + line) + ([SPACE] + rest);
    UnfoldBreak(f + line, rest);
    assert f + line + BREAK + rest == (f + line) + (BREAK + rest);
    assert (lines + [line])[..|lines|] == lines;
    AllFitSnoc(prefix, lines, value, begin, space, width);
  }

  lemma LastEmitted(prefix: nat, value: bytes, width: nat, f: bytes, lines: seq<bytes>, begin: nat)
    requires Emitted(prefix, value, width, f, lines, begin)
    requires Narrow(value, begin, |value|, if lines == [] then prefix else 1, width)
    ensures Unfold(f + value[begin..]) == value && IsFolding(f + value[begin..], lines + [value[begin..]])
    ensures AllFit(prefix, lines + [value[begin..]], width)
  {
    hide Unfold, AllFit;
    assert (lines + [value[begin..]])[..|lines|] == lines;
    assert value[begin..|value|] == value[begin..];
    AllFitSnoc(prefix, lines, value, begin, |value|, width);
  }

  /** The loop over one value, of which `prefix` bytes of name come first. */
  method FoldValue(prefix: nat, value: bytes, width: nat) returns (f: bytes, ghost lines: seq<bytes>)
    requires Tidy(value)
    ensures Unfold(f) == value && IsFolding(f, lines) && AllFit(prefix, lines, width)
  {
    hide Emitted, Unfold, TidyFrom, AllFit, IsFolding;
    NothingEmitted(prefix, value, width);
    f, lines := [], [];
    var begin, ptr, len, namelen, space := 0, 0, 0, prefix, -1;
    while ptr < |value|
      invariant begin <= ptr <= |value| && len == ptr - begin && -1 <= space < ptr
      invariant namelen == if lines == [] then prefix else 1
      invariant space >= 0 ==> begin <= space && value[space] == SPACE && Narrow(value, begin, space, namelen, width)
      invariant forall i :: begin <= i < ptr && space < i ==> value[i] != SPACE
      invariant Narrow(value, begin, ptr, namelen, width)
      invariant Emitted(prefix, value, width, f, lines, begin)
    {
      if namelen + len >= width {
        if space >= 0 {
          LineEmitted(prefix, value, width, f, lines, begin, space);
          f := f + value[begin..space] + BREAK;
          lines := lines + [value[begin..space]];
          begin := space + 1;
          namelen := 1;
          len := ptr - begin;
          space := -1;
        }
      }
      if value[ptr] == SPACE {
        space := ptr;
      }
      ptr, len := ptr + 1, len + 1;
    }
    LastEmitted(prefix, value, width, f, lines, begin);
    assert value[begin..begin + len] == value[begin..];
    lines := lines + [value[begin..]];
    f := f + value[begin..begin + len];
  }

  lemma {:induction false} LinesSnoc(t: Table, folds: seq<bytes>, h: Header, f: bytes)
    requires |t| == |folds|
    ensures Lines(t + [h], folds + [f]) == Lines(t, folds) + Line(h, f)
  {
    if t == [] {
      assert t + [h] == [h] && folds + [f] == [f];
      assert Lines([h][1..], [f][1..]) == [];
    } else {
      LinesSnoc(t[1..], folds[1..], h, f);
      assert (t + [h])[1..] == t[1..] + [h] && (folds + [f])[1..] == folds[1..] + [f];
      var a, b, c := Line(t[0], folds[0]), Lines(t[1..], folds[1..]), Line(h, f);
      assert a + (b + c) == (a + b) + c;
    }
  }

  /**
     The serialised form of a table, with these folded values. Each of them stands for the value in the table,
     and none of its lines is wider than the limit unless it has no space to be broken at.
   */
  ghost predicate FoldedAs(t: Table, width: nat, form: bytes, folds: seq<bytes>, lines: seq<seq<bytes>>) {
    && Unfolds(t, folds) && form == Serialized(t, folds)
    && |lines| == |folds|
    && forall i :: 0 <= i < |folds| ==> IsFolding(folds[i], lines[i]) && AllFit(|t[i].name| + 2, lines[i], width)
  }

  /** What the serialiser may write for a table. */
  ghost predicate Written(t: Table, width: nat, form: bytes) {
    exists folds: seq<bytes>, lines: seq<seq<bytes>> :: FoldedAs(t, width, form, folds, lines)
  }

  /** What has been written for a table is read back as that table if and only if it is short and every value stable. */
  lemma WrittenReadBack(d: Dictionary, t: Table, width: nat, form: bytes)
    requires WellFormed(d) && HeaderTable.Valid(d, t) && TidyTable(d, t) && Written(t, width, form)
    ensures var r := HeaderParsing.Run(d, false, form, HeaderParsing.INITIAL);
            r.End? && r.bodyOffset == |form| && r.store.table == t <==>
            |form| <= 8193 && forall i :: 0 <= i < |t| ==> Stable(d, t[i])
  {
    hide WellFormed, HeaderTable.Valid, TidyTable, Stable, HeaderParsing.Run, IsFolding, AllFit, Unfolds, Serialized;
    var folds: seq<bytes>, lines: seq<seq<bytes>> :| FoldedAs(t, width, form, folds, lines);
    RoundTripIff(d, t, folds);
  }
}

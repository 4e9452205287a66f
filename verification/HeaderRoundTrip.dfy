/**
 Parsing what the serialiser wrote. Long values are folded: some of their spaces have become line breaks
 with a tab. The parser reads the same table again, exactly when no value loses something on the way.
 */
module HeaderRoundTrip {
  import opened Bytes
  import opened HttpNames
  import opened HeaderTable
  import opened HeaderValues
  import opened HeaderParsing

  const BREAK: bytes := [CR, LF, TAB]

  predicate BreakHere(f: bytes) {
    |f| >= 3 && f[0] == CR && f[1] == LF && f[2] == TAB
  }

  /** The value that a folded value stands for: each line break with a tab is a space. */
  function Unfold(f: bytes): bytes {
    if BreakHere(f) then [SPACE] + Unfold(f[3..])
    else if f == [] then []
    else [f[0]] + Unfold(f[1..])
  }

  function Line(h: Header, f: bytes): bytes {
    h.name + [COLON, SPACE] + f + [CR, LF]
  }

  function Lines(t: Table, folds: seq<bytes>): bytes
    requires |t| == |folds|
  {
    if t == [] then [] else Line(t[0], folds[0]) + Lines(t[1..], folds[1..])
  }

  function TrimEnd(v: bytes): bytes {
    if v != [] && v[|v| - 1] == SPACE then v[..|v| - 1] else v
  }

  function FirstWord(v: bytes): bytes {
    if v == [] || v[0] == SPACE then [] else [v[0]] + FirstWord(v[1..])
  }

  /** What is left of a value after it has been written and read. */
  function Kept(d: Dictionary, h: Header): bytes {
    if IsSingle(d, h.id) then FirstWord(h.value) else TrimEnd(h.value)
  }

  /** The table as it comes back: empty values are lost. */
  function Reparsed(d: Dictionary, t: Table): Table {
    if t == [] then []
    else (if t[0].value == [] then [] else [t[0].(value := Kept(d, t[0]))]) + Reparsed(d, t[1..])
  }

  /** A value that survives: not empty, no space at its end, and no space at all if it must be one word. */
  predicate Stable(d: Dictionary, h: Header) {
    h.value != [] && h.value[|h.value| - 1] != SPACE && (IsSingle(d, h.id) ==> SPACE !in h.value)
  }

  /** An unknown header has a name that a line can carry, and that is unknown indeed. */
  predicate Readable(d: Dictionary, h: Header) {
    h.id == UNKNOWN ==> IsToken(h.name) && Lookup(d, h.name) == UNKNOWN
  }

  predicate TidyValues(t: Table) {
    forall i :: 0 <= i < |t| ==> Tidy(t[i].value)
  }

  predicate TidyTable(d: Dictionary, t: Table) {
    TidyValues(t) && forall i :: 0 <= i < |t| ==> Readable(d, t[i])
  }

  predicate Unfolds(t: Table, folds: seq<bytes>) {
    |t| == |folds| && forall i :: 0 <= i < |t| ==> Unfold(folds[i]) == t[i].value
  }

  ghost predicate At(buf: bytes, o: nat, x: bytes) {
    o + |x| <= |buf| && forall i :: o <= i < o + |x| ==> buf[i] == x[i - o]
  }

  lemma {:induction false} FirstWordIs(v: bytes)
    ensures SPACE !in v ==> FirstWord(v) == v
    ensures SPACE in v ==> forall c :: FirstWord(v + [c]) == FirstWord(v)
    ensures |FirstWord(v)| <= |v| && (FirstWord(v) == v ==> SPACE !in v)
  {
    if v != [] {
      FirstWordIs(v[1..]);
      forall c
        ensures SPACE in v ==> FirstWord(v + [c]) == FirstWord(v)
      {
        assert (v + [c])[1..] == v[1..] + [c];
      }
      assert v == [v[0]] + v[1..];
    }
  }

  /** A gap of any blanks between words is cleaned to one space. */
  lemma {:induction false} CleanGap(x: bytes, blanks: bytes, c: byte)
    requires StateAfter(x, 0) == 1 && c > SPACE && forall i :: 0 <= i < |blanks| ==> blanks[i] <= SPACE
    ensures Clean(x + blanks + [c]) == Clean(x) + (if blanks == [] then [] else [SPACE]) + [c]
    ensures StateAfter(x + blanks + [c], 0) == 1
  {
    CleanBlanks(blanks, 1);
    CleanConcat(x, blanks, 0);
    StateConcat(x, blanks, 0);
    CleanSnoc(x + blanks, c);
  }

  lemma {:induction false} CleanBlanks(blanks: bytes, state: nat)
    requires state == 1 || state == 2
    requires forall i :: 0 <= i < |blanks| ==> blanks[i] <= SPACE
    ensures CleanFrom(blanks, state) == (if blanks == [] || state == 2 then [] else [SPACE])
    ensures StateAfter(blanks, state) == if blanks == [] then state else 2
  {
    if blanks != [] {
      CleanBlanks(blanks[1..], 2);
    }
  }

  lemma OneStep(d: Dictionary, strict: bool, buf: bytes, s: Scan) returns (s': Scan)
    requires Within(d, s) && s.offset < |buf| && Step(d, strict, buf, s).Go?
    ensures s' == Step(d, strict, buf, s).scan && Within(d, s') && s'.offset == s.offset + 1
    ensures Run(d, strict, buf, s) == Run(d, strict, buf, s')
  {
    StepWithin(d, strict, buf, s);
    s' := Step(d, strict, buf, s).scan;
  }

  /** The name is read up to the colon. */
  lemma {:induction false} ScanName(d: Dictionary, strict: bool, buf: bytes, s: Scan, e: nat)
    requires Within(d, s) && s.state == 1 && s.offset <= e <= MAX_HEADERS_SIZE && e <= |buf|
    requires forall i :: s.offset <= i < e ==> SPACE < buf[i] < 127 && buf[i] != COLON
    ensures Within(d, s.(offset := e)) && Run(d, strict, buf, s) == Run(d, strict, buf, s.(offset := e))
    decreases e - s.offset
  {
    if s.offset < e {
      ScanName(d, strict, buf, s.(offset := s.offset + 1), e);
    }
  }

  lemma Slices(buf: bytes, i: nat, j: nat, k: nat)
    requires i <= j <= k < |buf|
    ensures buf[i..k + 1] == buf[i..k] + [buf[k]] == buf[i..j] + buf[j..k] + [buf[k]]
  {
  }

  /** The scan is inside the value of a header, of which `w` has been read, tidied. */
  ghost predicate InValue(d: Dictionary, buf: bytes, s: Scan, w: bytes) {
    && Within(d, s) && s.offset <= |buf| && w != [] && s.nCRLFs == 0
    && 0 < s.token < s.offset && (s.state == 4 || s.state == 7)
    && if IsSingle(d, s.header) && SPACE in w then
         s.end != 0 && s.token < s.end <= s.offset && Clean(buf[s.token..s.end]) == FirstWord(w)
       else if w[|w| - 1] != SPACE then
         s.state == 4 && s.end == 0 && Clean(buf[s.token..s.offset]) == w && StateAfter(buf[s.token..s.offset], 0) == 1
       else
         && s.token < s.end < s.offset && Clean(buf[s.token..s.end]) == w[..|w| - 1]
         && StateAfter(buf[s.token..s.end], 0) == 1 && forall i :: s.end <= i < s.offset ==> buf[i] <= SPACE
  }

  /** Both scans are about the same header of the same store. */
  ghost predicate SameField(s: Scan, s': Scan) {
    s'.token == s.token && s'.name == s.name && s'.namelen == s.namelen && s'.header == s.header && s'.store == s.store
  }

  lemma ScanWordByte(d: Dictionary, strict: bool, buf: bytes, s: Scan, w: bytes) returns (s': Scan)
    requires InValue(d, buf, s, w) && s.offset < |buf| && s.offset < MAX_HEADERS_SIZE
    requires buf[s.offset] > SPACE
    requires strict && IsSingle(d, s.header) ==> SPACE !in w
    ensures InValue(d, buf, s', w + [buf[s.offset]]) && SameField(s, s') && s'.offset == s.offset + 1
    ensures Run(d, strict, buf, s) == Run(d, strict, buf, s')
  {
    hide Run;
    var c := buf[s.offset];
    var w' := w + [c];
    s' := OneStep(d, strict, buf, s);
    assert w'[|w'| - 1] == c;
    if IsSingle(d, s.header) && SPACE in w {
      FirstWordIs(w);
      assert SPACE in w';
    } else if w[|w| - 1] != SPACE {
      CleanSnoc(buf[s.token..s.offset], c);
      Slices(buf, s.token, s.offset, s.offset);
      assert SPACE in w' ==> SPACE in w;
    } else {
      assert SPACE in w;
      var x, blanks := buf[s.token..s.end], buf[s.end..s.offset];
      CleanGap(x, blanks, c);
      Slices(buf, s.token, s.end, s.offset);
      assert w == w[..|w| - 1] + [SPACE];
      assert SPACE in w';
    }
  }

  lemma ScanSpace(d: Dictionary, strict: bool, buf: bytes, s: Scan, w: bytes) returns (s': Scan)
    requires InValue(d, buf, s, w) && s.offset < |buf| && s.offset < MAX_HEADERS_SIZE
    requires buf[s.offset] == SPACE && w[|w| - 1] != SPACE
    ensures InValue(d, buf, s', w + [SPACE]) && SameField(s, s') && s'.offset == s.offset + 1
    ensures Run(d, strict, buf, s) == Run(d, strict, buf, s')
  {
    hide Run;
    s' := OneStep(d, strict, buf, s);
    FirstWordIs(w);
    SpaceAfterWord(w);
  }

  lemma SpaceAfterWord(w: bytes)
    ensures var w' := w + [SPACE];
            SPACE in w' && w'[|w'| - 1] == SPACE && w'[..|w'| - 1] == w
    ensures SPACE !in w ==> FirstWord(w + [SPACE]) == w
  {
    assert (w + [SPACE])[|w|] == SPACE;
    if SPACE !in w {
      FirstWordStops(w, [SPACE]);
    }
  }

  lemma {:induction false} FirstWordStops(w: bytes, rest: bytes)
    requires SPACE !in w && rest != [] && rest[0] == SPACE
    ensures FirstWord(w + rest) == w
  {
    if w == [] {
      assert w + rest == rest;
    } else {
      FirstWordStops(w[1..], rest);
      assert (w + rest)[1..] == w[1..] + rest;
      assert w == [w[0]] + w[1..];
    }
  }

  /** A line break with a tab counts as the space that it replaced. */
  lemma ScanBreak(d: Dictionary, strict: bool, buf: bytes, s: Scan, w: bytes) returns (s': Scan)
    requires InValue(d, buf, s, w) && At(buf, s.offset, BREAK) && s.offset + 3 <= MAX_HEADERS_SIZE
    requires w[|w| - 1] != SPACE
    ensures InValue(d, buf, s', w + [SPACE]) && SameField(s, s') && s'.offset == s.offset + 3
    ensures Run(d, strict, buf, s) == Run(d, strict, buf, s')
  {
    hide Run;
    assert buf[s.offset] == CR && buf[s.offset + 1] == LF && buf[s.offset + 2] == TAB;
    s' := OneStep(d, strict, buf, s);
    s' := OneStep(d, strict, buf, s');
    s' := OneStep(d, strict, buf, s');
    FirstWordIs(w);
    SpaceAfterWord(w);
  }

  /** The part of a folded value that stands for its first byte. */
  function Unit(f: bytes): bytes
    requires f != []
  {
    if BreakHere(f) then BREAK else f[..1]
  }

  /** A tidy value that goes on with a folded text: its next byte, and what that byte was folded to. */
  lemma NextUnit(w: bytes, f: bytes) returns (unit: bytes, rest: bytes, c: byte)
    requires w != [] && f != [] && Tidy(w + Unfold(f))
    ensures unit != [] && f == unit + rest && Unfold(f) == [c] + Unfold(rest)
    ensures (unit == BREAK && c == SPACE) || (unit == [c] && c >= SPACE)
    ensures c == SPACE ==> w[|w| - 1] != SPACE
    ensures w + Unfold(f) == (w + [c]) + Unfold(rest)
    ensures SPACE in w ==> SPACE in w + Unfold(f)
  {
    unit, rest, c := Unit(f), f[|Unit(f)|..], Unfold(f)[0];
    TidyConcat(w, Unfold(f), true);
    assert f == unit + rest && Unfold(f) == [c] + Unfold(rest);
  }

  lemma ScanUnit(d: Dictionary, strict: bool, buf: bytes, s: Scan, w: bytes, unit: bytes, c: byte) returns (s': Scan)
    requires InValue(d, buf, s, w) && At(buf, s.offset, unit) && s.offset + |unit| <= MAX_HEADERS_SIZE
    requires (unit == BREAK && c == SPACE) || (unit == [c] && c >= SPACE)
    requires c == SPACE ==> w[|w| - 1] != SPACE
    requires strict && IsSingle(d, s.header) ==> SPACE !in w
    ensures InValue(d, buf, s', w + [c]) && SameField(s, s') && s'.offset == s.offset + |unit|
    ensures Run(d, strict, buf, s) == Run(d, strict, buf, s')
  {
    hide Run, Step;
    if unit == BREAK {
      s' := ScanBreak(d, strict, buf, s, w);
    } else {
      if c == SPACE {
        s' := ScanSpace(d, strict, buf, s, w);
      } else {
        s' := ScanWordByte(d, strict, buf, s, w);
      }
    }
  }

  lemma AtSplit(buf: bytes, o: nat, x: bytes, y: bytes)
    requires At(buf, o, x + y)
    ensures At(buf, o, x) && At(buf, o + |x|, y)
  {
  }

  /** A whole folded value is read as the value `v` that it stands for, of which `w` has been read. */
  lemma {:induction false} ScanFold(d: Dictionary, strict: bool, buf: bytes, s: Scan, w: bytes, f: bytes, v: bytes)
    returns (s': Scan)
    requires InValue(d, buf, s, w) && At(buf, s.offset, f) && s.offset + |f| <= MAX_HEADERS_SIZE
    requires v == w + Unfold(f) && Tidy(v)
    requires strict && IsSingle(d, s.header) ==> SPACE !in v
    ensures InValue(d, buf, s', v) && SameField(s, s') && s'.offset == s.offset + |f|
    ensures Run(d, strict, buf, s) == Run(d, strict, buf, s')
    decreases |f|
  {
    hide Run, Step;
    if f == [] {
      assert v == w;
      return s;
    }
    var unit, rest, c := NextUnit(w, f);
    AtSplit(buf, s.offset, unit, rest);
    s' := ScanUnit(d, strict, buf, s, w, unit, c);
    s' := ScanFold(d, strict, buf, s', w + [c], rest, v);
  }

  /** At the end of the line the scan remembers exactly what is kept of the value. */
  lemma ScanEnd(d: Dictionary, strict: bool, buf: bytes, s: Scan, w: bytes) returns (s': Scan)
    requires InValue(d, buf, s, w) && At(buf, s.offset, [CR, LF]) && s.offset + 2 <= MAX_HEADERS_SIZE
    requires Tidy(w)
    ensures Within(d, s') && SameField(s, s') && s'.offset == s.offset + 2 && s'.state == 6 && s'.nCRLFs == 1
    ensures s.token < s'.end <= s.offset
    ensures Clean(buf[s.token..s'.end]) == if IsSingle(d, s.header) then FirstWord(w) else TrimEnd(w)
    ensures Run(d, strict, buf, s) == Run(d, strict, buf, s')
  {
    hide Run;
    assert buf[s.offset] == CR && buf[s.offset + 1] == LF;
    s' := OneStep(d, strict, buf, s);
    s' := OneStep(d, strict, buf, s');
    FirstWordIs(w);
  }

  /** The scan is at the beginning of a line; once the header before it is flushed, the table is `done`. */
  ghost predicate AtLine(d: Dictionary, buf: bytes, s: Scan, done: Table) {
    && Within(d, s) && s.offset <= |buf| && |done| <= s.offset && s.nCRLFs == 1
    && ((s == INITIAL && done == []) ||
        (s.state == 6 && Flush(d, buf, s).Some? && Flush(d, buf, s).value.table == done &&
         Flush(d, buf, s).value.used <= s.offset))
  }

  /** The scan is behind the colon of a header. */
  ghost predicate AfterName(d: Dictionary, buf: bytes, s: Scan, h: Header, done: Table, used: nat) {
    && Within(d, s) && s.offset <= |buf| && s.state == 3 && s.nCRLFs == 0
    && s.header == h.id && s.store.table == done && s.store.used <= used
    && (h.id == UNKNOWN ==> buf[s.name..s.name + s.namelen] == h.name)
  }

  /** A header may follow what has been read: it ranks last, and it is new unless it may be repeated. */
  predicate Follows(d: Dictionary, done: Table, h: Header) {
    forall i :: 0 <= i < |done| ==>
      Rank(d, done[i].id) <= Rank(d, h.id) && (KeyOf(done[i]) == KeyOf(h) ==> IsMultiple(d, KeyOf(h)))
  }

  lemma {:induction false} NoRepeat(d: Dictionary, done: Table, h: Header)
    requires WellFormed(d) && h.id < |d| && !d[h.id].multiple && Follows(d, done, h)
    ensures !Repeats(d, done, h.id)
  {
    if done != [] {
      assert KeyOf(done[0]) == KeyOf(h) ==> IsMultiple(d, KeyOf(h));
      NoRepeat(d, done[1..], h);
    }
  }

  /** How the name of a header may be written: a known one in any case, an unknown one as it is. */
  ghost predicate Writes(h: Header, name: bytes) {
    if h.id == UNKNOWN then name == h.name else IsSpelling(name, h.name)
  }

  lemma OwnName(h: Header)
    ensures Writes(h, h.name)
  {
  }

  lemma NameIsFound(d: Dictionary, h: Header, name: bytes)
    requires WellFormed(d) && IsHeader(d, h) && Readable(d, h) && Writes(h, name)
    ensures Lookup(d, name) == h.id && IsToken(name) && |name| == |h.name|
  {
    if h.id != UNKNOWN {
      LookupSpelling(d, name, h.id);
      SpellingIsToken(name, h.name);
    }
  }

  lemma SpellingIsToken(name: bytes, token: bytes)
    requires IsToken(token) && IsSpelling(name, token)
    ensures IsToken(name)
  {
    forall i | 0 <= i < |name|
      ensures SPACE < name[i] < 127 && name[i] != COLON
    {
      assert SameLetter(name[i], token[i]);
    }
  }

  lemma ScanLineStart(d: Dictionary, strict: bool, buf: bytes, s: Scan, done: Table) returns (s': Scan)
    requires AtLine(d, buf, s, done) && s.offset < |buf| && s.offset < MAX_HEADERS_SIZE
    requires SPACE < buf[s.offset] < 127 && buf[s.offset] != COLON
    ensures Within(d, s') && s'.offset == s.offset + 1 && s'.state == 1 && s'.token == s.offset && s'.nCRLFs == 0
    ensures s'.store.table == done && s'.store.used <= s.offset
    ensures Run(d, strict, buf, s) == Run(d, strict, buf, s')
  {
    hide Run;
    s' := OneStep(d, strict, buf, s);
  }

  lemma AtSlice(buf: bytes, o: nat, x: bytes)
    requires At(buf, o, x)
    ensures buf[o..o + |x|] == x
  {
  }

  /** ':' and the space behind it. */
  lemma ScanColon(d: Dictionary, strict: bool, buf: bytes, s: Scan, done: Table, h: Header, name: bytes, used: nat)
    returns (s': Scan)
    requires WellFormed(d) && IsHeader(d, h) && Readable(d, h) && Writes(h, name) && Follows(d, done, h)
    requires Within(d, s) && s.state == 1 && s.nCRLFs == 0 && s.store.table == done && s.store.used <= used
    requires s.offset + 2 <= |buf| && s.offset + 2 <= MAX_HEADERS_SIZE
    requires buf[s.token..s.offset] == name && buf[s.offset] == COLON && buf[s.offset + 1] == SPACE
    ensures AfterName(d, buf, s', h, done, used) && s'.offset == s.offset + 2
    ensures Run(d, strict, buf, s) == Run(d, strict, buf, s')
  {
    hide Run;
    NameIsFound(d, h, name);
    if h.id < |d| && !d[h.id].multiple {
      NoRepeat(d, done, h);
    }
    assert s.token + (s.offset - s.token) == s.offset;
    s' := OneStep(d, strict, buf, s);
    s' := OneStep(d, strict, buf, s');
  }

  lemma ScanHeaderName(d: Dictionary, strict: bool, buf: bytes, s: Scan, done: Table, h: Header, name: bytes)
    returns (s': Scan)
    requires WellFormed(d) && IsHeader(d, h) && Readable(d, h) && Writes(h, name) && Follows(d, done, h)
    requires AtLine(d, buf, s, done)
    requires At(buf, s.offset, name + [COLON, SPACE]) && s.offset + |name| + 2 <= MAX_HEADERS_SIZE
    ensures AfterName(d, buf, s', h, done, s.offset) && s'.offset == s.offset + |name| + 2
    ensures Run(d, strict, buf, s) == Run(d, strict, buf, s')
  {
    hide Run, Step, Writes;
    NameIsFound(d, h, name);
    AtSplit(buf, s.offset, name, [COLON, SPACE]);
    AtSlice(buf, s.offset, name);
    var e := s.offset + |name|;
    s' := ScanLineStart(d, strict, buf, s, done);
    ScanName(d, strict, buf, s', e);
    s' := ScanColon(d, strict, buf, s'.(offset := e), done, h, name, s.offset);
  }

  lemma ScanFirstByte(d: Dictionary, strict: bool, buf: bytes, s: Scan, h: Header, done: Table, used: nat) returns (s': Scan)
    requires AfterName(d, buf, s, h, done, used) && s.offset < |buf| && s.offset < MAX_HEADERS_SIZE && buf[s.offset] > SPACE
    ensures InValue(d, buf, s', [buf[s.offset]]) && s'.offset == s.offset + 1
    ensures s'.name == s.name && s'.namelen == s.namelen && s'.header == s.header && s'.store == s.store && s'.token == s.offset
    ensures Run(d, strict, buf, s) == Run(d, strict, buf, s')
  {
    hide Run;
    s' := OneStep(d, strict, buf, s);
    assert buf[s.offset..s.offset + 1] == [buf[s.offset]];
    var empty: bytes := [];
    CleanSnoc(empty, buf[s.offset]);
    assert empty + [buf[s.offset]] == [buf[s.offset]];
  }

  /** Everything behind the colon: at the end of the line the scan holds what is kept of the value. */
  lemma ScanValue(d: Dictionary, strict: bool, buf: bytes, s: Scan, h: Header, done: Table, used: nat, f: bytes) returns (s': Scan)
    requires AfterName(d, buf, s, h, done, used) && At(buf, s.offset, f + [CR, LF])
    requires s.offset + |f| + 2 <= MAX_HEADERS_SIZE && Tidy(h.value) && h.value == Unfold(f)
    requires strict && IsSingle(d, h.id) ==> SPACE !in h.value
    ensures Within(d, s') && s'.offset == s.offset + |f| + 2 && s'.state == 6 && s'.nCRLFs == 1
    ensures s'.name == s.name && s'.namelen == s.namelen && s'.header == s.header && s'.store == s.store
    ensures h.value == [] ==> s'.token == 0
    ensures h.value != [] ==> s'.token == s.offset < s'.end <= s.offset + |f| && Clean(buf[s'.token..s'.end]) == Kept(d, h)
    ensures Run(d, strict, buf, s) == Run(d, strict, buf, s')
  {
    hide Run, Step;
    AtSplit(buf, s.offset, f, [CR, LF]);
    if f == [] {
      s' := ScanNothing(d, strict, buf, s);
    } else {
      var rest := TidyStart(f, h.value);
      AtSplit(buf, s.offset, [h.value[0]], rest);
      s' := ScanFirstByte(d, strict, buf, s, h, done, used);
      s' := ScanFold(d, strict, buf, s', [h.value[0]], rest, h.value);
      s' := ScanEnd(d, strict, buf, s', h.value);
    }
  }

  lemma ScanNothing(d: Dictionary, strict: bool, buf: bytes, s: Scan) returns (s': Scan)
    requires Within(d, s) && s.state == 3 && s.nCRLFs == 0
    requires At(buf, s.offset, [CR, LF]) && s.offset + 2 <= MAX_HEADERS_SIZE
    ensures Within(d, s') && s' == s.(offset := s.offset + 2, state := 6, nCRLFs := 1)
    ensures Run(d, strict, buf, s) == Run(d, strict, buf, s')
  {
    hide Run;
    s' := OneStep(d, strict, buf, s);
    s' := OneStep(d, strict, buf, s');
  }

  lemma TidyStart(f: bytes, v: bytes) returns (rest: bytes)
    requires f != [] && v == Unfold(f) && Tidy(v)
    ensures v != [] && v[0] > SPACE && f == [v[0]] + rest && v == [v[0]] + Unfold(rest)
  {
    rest := f[1..];
  }

  lemma AppendAdd(d: Dictionary, done: Table, h: Header, value: bytes)
    requires IsHeader(d, h) && Follows(d, done, h)
    ensures Find(d, done, KeyOf(h)) == None
    ensures Add(d, done, h.id, h.name, value, false) == done + [h.(value := value)]
  {
    assert Slot(d, done, h.id) == |done|;
    assert done[..|done|] == done && done[|done|..] == [];
  }

  lemma {:induction false} CleanShortens(s: bytes, state: nat)
    ensures |CleanFrom(s, state)| <= |s|
  {
    if s != [] {
      CleanShortens(s[1..], if s[0] > SPACE then 1 else if state == 1 then 2 else state);
    }
  }

  /** One line of a header, under any spelling of its name, adds what is kept of it under its own name. */
  lemma ScanLine(
    d: Dictionary, strict: bool, buf: bytes, s: Scan, done: Table, h: Header, name: bytes, f: bytes)
    returns (s': Scan)
    requires WellFormed(d) && IsHeader(d, h) && Readable(d, h) && Writes(h, name) && Follows(d, done, h)
    requires AtLine(d, buf, s, done)
    requires var line := Line(h.(name := name), f);
             At(buf, s.offset, line) && s.offset + |line| <= MAX_HEADERS_SIZE
    requires Tidy(h.value) && h.value == Unfold(f)
    requires strict && IsSingle(d, h.id) ==> SPACE !in h.value
    ensures AtLine(d, buf, s', done + Reparsed(d, [h])) && s'.offset == s.offset + |Line(h.(name := name), f)|
    ensures Run(d, strict, buf, s) == Run(d, strict, buf, s')
  {
    hide Run, Step, Writes;
    var head := name + [COLON, SPACE];
    assert Line(h.(name := name), f) == head + (f + [CR, LF]);
    AtSplit(buf, s.offset, head, f + [CR, LF]);
    NameIsFound(d, h, name);
    s' := ScanHeaderName(d, strict, buf, s, done, h, name);
    var start := s'.offset;
    s' := ScanValue(d, strict, buf, s', h, done, s.offset, f);
    LineFlushed(d, buf, s', done, h, s.offset, |f|);
  }

  lemma AppendRaw(d: Dictionary, st: Store, h: Header, raw: bytes)
    requires IsHeader(d, h) && Follows(d, st.table, h) && Clean(raw) == Kept(d, h)
    requires st.used + |h.name| + |raw| + 2 <= MAX_ARENA && |st.table| < MAX_ENTRIES
    ensures var r := AddRaw(d, st, h.id, h.name, raw, false);
            r.Some? && r.value.table == st.table + [h.(value := Kept(d, h))] && r.value.used <= st.used + |h.name| + |raw| + 2
  {
    hide Lookup, Rank, Add, Find, Slot, Kept;
    AppendAdd(d, st.table, h, Kept(d, h));
    CleanShortens(raw, 0);
  }

  lemma LineFlushed(d: Dictionary, buf: bytes, s: Scan, done: Table, h: Header, start: nat, size: nat)
    requires IsHeader(d, h) && Follows(d, done, h) && h.id == s.header && |done| <= start
    requires Within(d, s) && s.offset <= |buf| && s.state == 6 && s.nCRLFs == 1
    requires s.store.table == done && s.store.used <= start && s.offset == start + |h.name| + size + 4
    requires h.id == UNKNOWN ==> buf[s.name..s.name + s.namelen] == h.name
    requires h.value == [] ==> s.token == 0
    requires h.value != [] ==> 0 < s.token && s.end <= s.token + size && Clean(buf[s.token..s.end]) == Kept(d, h)
    ensures AtLine(d, buf, s, done + Reparsed(d, [h]))
  {
    hide AddRaw, Follows, Lookup, Kept, Clean, Reparsed, IsToken;
    ReparsedOne(d, h);
    if h.value == [] {
      assert done + Reparsed(d, [h]) == done;
    } else {
      AppendRaw(d, s.store, h, buf[s.token..s.end]);
    }
  }

  function Serialized(t: Table, folds: seq<bytes>): bytes
    requires |t| == |folds|
  {
    Lines(t, folds) + [CR, LF]
  }

  /** No value that must be one word has a space: what the strict parser refuses. */
  predicate OneWord(d: Dictionary, t: Table) {
    forall i :: 0 <= i < |t| && IsSingle(d, t[i].id) ==> SPACE !in t[i].value
  }

  /** What has been read is compatible with all that is still to come. */
  ghost predicate Precedes(d: Dictionary, done: Table, t: Table) {
    forall j :: 0 <= j < |t| ==> Follows(d, done, t[j])
  }

  lemma ReparsedOne(d: Dictionary, h: Header)
    ensures Reparsed(d, [h]) == if h.value == [] then [] else [h.(value := Kept(d, h))]
  {
    hide Kept;
    var one: Table := [h];
    assert one[1..] == [] && Reparsed(d, one[1..]) == [];
  }

  lemma PrecedesNext(d: Dictionary, done: Table, t: Table)
    requires t != [] && Valid(d, t) && Precedes(d, done, t)
    ensures Precedes(d, done + Reparsed(d, [t[0]]), t[1..]) && Valid(d, t[1..])
  {
    hide Lookup, IsHeader, Kept, Rank, IsMultiple, IsToken;
    var h := t[0];
    var more := Reparsed(d, [h]);
    ReparsedOne(d, h);
    forall j | 0 <= j < |t[1..]|
      ensures Follows(d, done + more, t[1..][j])
    {
      assert t[1..][j] == t[j + 1];
      assert Follows(d, done, t[j + 1]);
    }
  }

  lemma ReparsedFirst(d: Dictionary, t: Table)
    requires t != []
    ensures Reparsed(d, t) == Reparsed(d, [t[0]]) + Reparsed(d, t[1..])
  {
    assert [t[0]][1..] == [];
  }

  /** The headers under the names they are written with. */
  function Respelled(t: Table, names: seq<bytes>): (r: Table)
    requires |t| == |names|
    ensures |r| == |t|
  {
    seq(|t|, i requires 0 <= i < |t| => t[i].(name := names[i]))
  }

  ghost predicate WritesAll(t: Table, names: seq<bytes>) {
    |t| == |names| && forall i :: 0 <= i < |t| ==> Writes(t[i], names[i])
  }

  /** What holds of all headers holds of the first and of the rest. */
  lemma FirstAndRest(d: Dictionary, strict: bool, done: Table, t: Table, names: seq<bytes>, folds: seq<bytes>)
    requires t != [] && Valid(d, t) && TidyTable(d, t) && Unfolds(t, folds) && WritesAll(t, names)
    requires (strict ==> OneWord(d, t)) && Precedes(d, done, t)
    ensures |t| == |names| == |folds|
    ensures IsHeader(d, t[0]) && Readable(d, t[0]) && Writes(t[0], names[0]) && Tidy(t[0].value)
    ensures t[0].value == Unfold(folds[0]) && (strict && IsSingle(d, t[0].id) ==> SPACE !in t[0].value)
    ensures Follows(d, done, t[0])
    ensures TidyTable(d, t[1..]) && Unfolds(t[1..], folds[1..]) && WritesAll(t[1..], names[1..])
    ensures strict ==> OneWord(d, t[1..])
  {
    hide Readable, IsHeader, Writes, Unfold, TidyFrom, Follows, Rank, IsMultiple, IsSingle;
  }

  lemma LinesRespelled(t: Table, names: seq<bytes>, folds: seq<bytes>)
    requires |t| == |names| == |folds| > 0
    ensures Lines(Respelled(t, names), folds)
            == Line(t[0].(name := names[0]), folds[0]) + Lines(Respelled(t[1..], names[1..]), folds[1..])
  {
    assert Respelled(t, names)[1..] == Respelled(t[1..], names[1..]);
  }

  /** All the lines, one after the other. */
  lemma {:induction false} ScanLines(
    d: Dictionary, strict: bool, buf: bytes, s: Scan, done: Table, t: Table, names: seq<bytes>, folds: seq<bytes>)
    returns (s': Scan)
    requires WritesAll(t, names)
    requires WellFormed(d) && Valid(d, t) && Precedes(d, done, t) && AtLine(d, buf, s, done)
    requires TidyTable(d, t) && Unfolds(t, folds) && (strict ==> OneWord(d, t))
    requires At(buf, s.offset, Lines(Respelled(t, names), folds)) && s.offset + |Lines(Respelled(t, names), folds)| <= MAX_HEADERS_SIZE
    ensures AtLine(d, buf, s', done + Reparsed(d, t)) && s'.offset == s.offset + |Lines(Respelled(t, names), folds)|
    ensures Run(d, strict, buf, s) == Run(d, strict, buf, s')
    decreases |t|
  {
    hide Run, Step, Within, AddRaw, Flush, Lookup, Unfold, Kept, AtLine, Follows, IsHeader, TidyFrom, Readable, Writes, At, OneWord,
         Valid, TidyTable, Unfolds, WritesAll, Precedes, WellFormed;
    if t == [] {
      assert done + Reparsed(d, t) == done;
      return s;
    }
    FirstAndRest(d, strict, done, t, names, folds);
    var line, rest := Line(t[0].(name := names[0]), folds[0]), Lines(Respelled(t[1..], names[1..]), folds[1..]);
    LinesRespelled(t, names, folds);
    hide Respelled, Lines;
    AtSplit(buf, s.offset, line, rest);
    s' := ScanLine(d, strict, buf, s, done, t[0], names[0], folds[0]);
    var more := Reparsed(d, [t[0]]);
    PrecedesNext(d, done, t);
    ReparsedFirst(d, t);
    assert done + Reparsed(d, t) == (done + more) + Reparsed(d, t[1..]);
    s' := ScanLines(d, strict, buf, s', done + more, t[1..], names[1..], folds[1..]);
  }

  /** The blank line behind the headers. */
  lemma ScanBlankLine(d: Dictionary, strict: bool, buf: bytes, s: Scan, done: Table)
    requires AtLine(d, buf, s, done) && At(buf, s.offset, [CR, LF]) && s.offset + 1 <= MAX_HEADERS_SIZE
    ensures var r := Run(d, strict, buf, s); r.End? && r.bodyOffset == s.offset + 2 && r.store.table == done
  {
    var s' := OneStep(d, strict, buf, s);
    assert Step(d, strict, buf, s').Stop?;
  }

  /**
     Whatever spaces are folded, and in whatever case the known names are written, the parser stops right behind the
     headers, with the table in the same order, its own names, and of each value what can be kept.
   */
  lemma ParseSpelled(d: Dictionary, strict: bool, t: Table, names: seq<bytes>, folds: seq<bytes>)
    requires WellFormed(d) && Valid(d, t) && TidyTable(d, t) && Unfolds(t, folds) && (strict ==> OneWord(d, t))
    requires WritesAll(t, names) && |Serialized(Respelled(t, names), folds)| <= MAX_HEADERS_SIZE + 1
    ensures var form := Serialized(Respelled(t, names), folds);
            var r := Run(d, strict, form, INITIAL);
            r.End? && r.bodyOffset == |form| && r.store.table == Reparsed(d, t)
  {
    hide Run, Step, Lookup, Unfold, Kept, Lines, Reparsed, Writes;
    var buf := Serialized(Respelled(t, names), folds);
    assert AtLine(d, buf, INITIAL, []);
    AtSplit(buf, 0, Lines(Respelled(t, names), folds), [CR, LF]);
    var s := ScanLines(d, strict, buf, INITIAL, [], t, names, folds);
    assert [] + Reparsed(d, t) == Reparsed(d, t);
    ScanBlankLine(d, strict, buf, s, Reparsed(d, t));
  }

  /** So the serialised form of a table is read to its end, in whatever way it was folded. */
  lemma ParseSerialized(d: Dictionary, strict: bool, t: Table, folds: seq<bytes>)
    requires WellFormed(d) && Valid(d, t) && TidyTable(d, t) && Unfolds(t, folds) && (strict ==> OneWord(d, t))
    requires |Serialized(t, folds)| <= MAX_HEADERS_SIZE + 1
    ensures var r := Run(d, strict, Serialized(t, folds), INITIAL);
            r.End? && r.bodyOffset == |Serialized(t, folds)| && r.store.table == Reparsed(d, t)
  {
    hide Run, Valid, TidyTable, Unfolds, OneWord, Serialized, Reparsed, Writes;
    var names := seq(|t|, i requires 0 <= i < |t| => t[i].name);
    forall i | 0 <= i < |t|
      ensures Writes(t[i], names[i])
    {
      OwnName(t[i]);
    }
    assert Respelled(t, names) == t;
    ParseSpelled(d, strict, t, names, folds);
  }

  lemma {:induction false} ReparsedSize(d: Dictionary, t: Table)
    ensures |Reparsed(d, t)| <= |t|
    ensures Reparsed(d, t) == t <==> forall i :: 0 <= i < |t| ==> t[i].value != [] && Kept(d, t[i]) == t[i].value
  {
    hide Kept;
    if t != [] {
      ReparsedSize(d, t[1..]);
      assert forall i :: 1 <= i < |t| ==> t[i] == t[1..][i - 1];
      if t[0].value == [] {
        assert |Reparsed(d, t)| < |t|;
      } else {
        assert Reparsed(d, t)[0] == t[0].(value := Kept(d, t[0]));
        assert Reparsed(d, t)[1..] == Reparsed(d, t[1..]);
        assert t == [t[0]] + t[1..];
      }
    }
  }

  lemma KeptIsStable(d: Dictionary, h: Header)
    requires Tidy(h.value)
    ensures h.value != [] && Kept(d, h) == h.value <==> Stable(d, h)
  {
    FirstWordIs(h.value);
    if h.value != [] && h.value[|h.value| - 1] == SPACE {
      assert SPACE in h.value;
    }
  }

  lemma {:induction false} EndIsNear(d: Dictionary, strict: bool, buf: bytes, s: Scan)
    requires Within(d, s)
    ensures var r := Run(d, strict, buf, s); r.End? ==> r.bodyOffset <= 8193
    decreases |buf| - s.offset
  {
    if s.offset < |buf| {
      StepWithin(d, strict, buf, s);
      match Step(d, strict, buf, s)
      case Go(s') => EndIsNear(d, strict, buf, s');
      case Stop(_) =>
    }
  }

  lemma {:induction false} OneLetterValue(n: nat)
    ensures var v := Repeat(0x62, n); Unfold(v) == v && forall gap :: TidyFrom(v, gap)
  {
    var v := Repeat(0x62, n);
    if n > 0 {
      assert v[1..] == Repeat(0x62, n - 1) && v == [0x62] + v[1..];
      OneLetterValue(n - 1);
    }
  }

  /** The longest headers that are accepted end one byte beyond the limit: for example one with a long value. */
  lemma EndIsBeyond(d: Dictionary)
    requires WellFormed(d) && Lookup(d, [0x61]) == UNKNOWN
    ensures var v := Repeat(0x62, 8186);
            var r := Run(d, false, Serialized([Header(UNKNOWN, [0x61], v)], [v]), INITIAL);
            r.End? && r.bodyOffset == 8193
  {
    hide WellFormed, Lookup, IsToken, Run, Unfold, TidyFrom;
    var v := Repeat(0x62, MAX_HEADERS_SIZE - 6);
    var t, folds := [Header(UNKNOWN, [0x61], v)], [v];
    OneLetterValue(MAX_HEADERS_SIZE - 6);
    assert IsToken([0x61]) by {
      OneLetterIsToken();
    }
    SmallDictionary(d);
    assert t[1..] == [] && folds[1..] == [] && Lines(t[1..], folds[1..]) == [];
    assert |Serialized(t, folds)| == MAX_HEADERS_SIZE + 1;
    ParseSerialized(d, false, t, folds);
  }

  /** The same table comes back if and only if the headers are not too long and every value is stable. */
  lemma RoundTripIff(d: Dictionary, t: Table, folds: seq<bytes>)
    requires WellFormed(d) && Valid(d, t) && TidyTable(d, t) && Unfolds(t, folds)
    ensures var s := Serialized(t, folds);
            var r := Run(d, false, s, INITIAL);
            r.End? && r.bodyOffset == |s| && r.store.table == t <==>
            |s| <= 8193 && forall i :: 0 <= i < |t| ==> Stable(d, t[i])
  {
    hide Run, Lookup, Unfold, Lines;
    var s := Serialized(t, folds);
    EndIsNear(d, false, s, INITIAL);
    ReparsedSize(d, t);
    forall i | 0 <= i < |t|
      ensures t[i].value != [] && Kept(d, t[i]) == t[i].value <==> Stable(d, t[i])
    {
      KeptIsStable(d, t[i]);
    }
    if |s| <= MAX_HEADERS_SIZE + 1 {
      ParseSerialized(d, false, t, folds);
    }
  }

  /** For example, the header `a` with the value `b ` is legal, and is read back with the value `b`. */
  lemma TrailingSpaceIsLost(d: Dictionary)
    requires WellFormed(d) && Lookup(d, [0x61]) == UNKNOWN
    ensures var t, folds := [Header(UNKNOWN, [0x61], [0x62, SPACE])], [[0x62, SPACE]];
            && Valid(d, t) && TidyTable(d, t) && Unfolds(t, folds) && !Stable(d, t[0])
            && var r := Run(d, false, Serialized(t, folds), INITIAL);
               r.End? && r.store.table == [Header(UNKNOWN, [0x61], [0x62])]
  {
    hide WellFormed, Lookup, IsToken, Run;
    var v: bytes := [0x62, SPACE];
    assert v[1..] == [SPACE] && v[1..][1..] == [] && v[..1] == [0x62];
    assert TidyFrom(v[1..][1..], true) && TidyFrom(v[1..], false) && Tidy(v);
    var t, folds := [Header(UNKNOWN, [0x61], v)], [v];
    assert Reparsed(d, t[1..]) == [];
    assert IsToken([0x61]) by {
      OneLetterIsToken();
    }
    SmallDictionary(d);
    assert Unfold(v[1..][1..]) == [] && Unfold(v[1..]) == [SPACE] + [] && Unfold(v) == [0x62] + [SPACE];
    assert t[1..] == [] && folds[1..] == [] && Lines(t[1..], folds[1..]) == [];
    assert |Serialized(t, folds)| <= 20;
    ParseSerialized(d, false, t, folds);
  }

  lemma OneLetterIsToken()
    ensures IsToken([0x61])
  {
  }

  lemma SmallDictionary(d: Dictionary)
    requires WellFormed(d)
    ensures |d| <= UNKNOWN
  {
  }
}

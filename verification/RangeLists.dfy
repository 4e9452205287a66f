/** What the range parser makes of a list of byte ranges, section 2.1 of RFC 7233, and which texts it takes for one. */
module RangeLists {
  import opened Bytes
  import opened Numbers
  import opened Multipart
  import opened RangeParser
  import opened Sequences

  /** A range as a client means it. */
  datatype Spec = FromTo(from: nat, to: nat) | FromOn(from: nat) | Suffix(count: nat)

  predicate Fits(spec: Spec) {
    match spec
    case FromTo(from, to) => from < OFF_T / 2 && to < OFF_T / 2
    case FromOn(from) => from < OFF_T / 2
    case Suffix(count) => count < OFF_T / 2
  }

  /** A range that has a byte of the file in it. */
  predicate Satisfiable(spec: Spec, filesize: nat) {
    match spec
    case FromTo(from, to) => from <= to && from < filesize
    case FromOn(from) => from < filesize
    case Suffix(count) => count > 0 && filesize > 0
  }

  /** The bytes of the file it stands for. */
  function Clamped(spec: Spec, filesize: nat): Range
    requires Satisfiable(spec, filesize)
  {
    match spec
    case FromTo(from, to) => Range(from, if to < filesize then to else filesize - 1)
    case FromOn(from) => Range(from, filesize - 1)
    case Suffix(count) => Range(if count < filesize then filesize - count else 0, filesize - 1)
  }

  predicate AllSatisfiable(specs: seq<Spec>, filesize: nat) {
    forall i :: 0 <= i < |specs| ==> Satisfiable(specs[i], filesize)
  }

  function AllClamped(specs: seq<Spec>, filesize: nat): (r: seq<Range>)
    requires AllSatisfiable(specs, filesize)
    ensures |r| == |specs|
  {
    seq(|specs|, i requires 0 <= i < |specs| => Clamped(specs[i], filesize))
  }

  predicate Blanks(s: bytes) {
    forall i :: 0 <= i < |s| ==> s[i] as char == ' ' || s[i] as char == '\t'
  }

  predicate Digits(s: bytes) {
    forall i :: 0 <= i < |s| ==> '0' <= s[i] as char <= '9'
  }

  /** A range as it may be written: digits before or behind a hyphen, or both, and blanks around them. */
  datatype Entry = Entry(before: bytes, first: bytes, gap: bytes, next: bytes, second: bytes, after: bytes)

  predicate IsEntry(e: Entry) {
    && Blanks(e.before) && Blanks(e.gap) && Blanks(e.next) && Blanks(e.after) && Digits(e.first) && Digits(e.second)
    && (e.first == [] ==> e.gap == [] && e.second != [])
  }

  /** The text of an entry as far as the hyphen, and behind it. */
  function Front(e: Entry): bytes {
    e.before + e.first + e.gap
  }

  function Back(e: Entry): bytes {
    e.next + e.second + e.after
  }

  function Text(e: Entry): bytes {
    Front(e) + [MINUS] + Back(e)
  }

  function Meaning(e: Entry): Spec
    requires IsEntry(e)
  {
    DigitsHaveValue(e.first);
    DigitsHaveValue(e.second);
    if e.first == [] then Suffix(NumberOf(e.second))
    else if e.second == [] then FromOn(NumberOf(e.first))
    else FromTo(NumberOf(e.first), NumberOf(e.second))
  }

  predicate AreEntries(es: seq<Entry>) {
    forall i :: 0 <= i < |es| ==> IsEntry(es[i])
  }

  function Meanings(es: seq<Entry>): (specs: seq<Spec>)
    requires AreEntries(es)
    ensures |specs| == |es|
  {
    seq(|es|, i requires 0 <= i < |es| => Meaning(es[i]))
  }

  /** Entries with commas between them. */
  function TextAll(es: seq<Entry>): bytes
    requires es != []
  {
    if |es| == 1 then Text(es[0]) else Text(es[0]) + [COMMA] + TextAll(es[1..])
  }

  lemma {:induction false} DigitsHaveValue(digits: bytes)
    requires Digits(digits)
    ensures NumberOf(digits) >= 0
  {
    if digits != [] {
      DigitsHaveValue(digits[..|digits| - 1]);
    }
  }

  /** Reading on from a byte string to whatever follows it. */
  function Through(s: Scan, filesize: int, text: bytes): Outcome
    decreases |text|
  {
    if text == [] then Read(s)
    else
      match Step(s, filesize, text[0])
      case Refused => Refused
      case Read(t) => Through(t, filesize, text[1..])
  }

  lemma {:induction false} RunThrough(s: Scan, filesize: int, a: bytes, b: bytes)
    ensures Run(s, filesize, a + b)
            == match Through(s, filesize, a)
               case Refused => Refused
               case Read(t) => Run(t, filesize, b)
    decreases |a|
  {
    hide Step;
    if a == [] {
      assert a + b == b;
    } else {
      assert (a + b)[1..] == a[1..] + b;
      match Step(s, filesize, a[0])
      case Refused =>
      case Read(t) => RunThrough(t, filesize, a[1..], b);
    }
  }

  lemma {:induction false} ThroughJoins(s: Scan, filesize: int, a: bytes, b: bytes)
    ensures Through(s, filesize, a + b)
            == match Through(s, filesize, a)
               case Refused => Refused
               case Read(t) => Through(t, filesize, b)
    decreases |a|
  {
    hide Step;
    if a == [] {
      assert a + b == b;
    } else {
      assert (a + b)[1..] == a[1..] + b;
      match Step(s, filesize, a[0])
      case Refused =>
      case Read(t) => ThroughJoins(t, filesize, a[1..], b);
    }
  }

  lemma ThroughByte(s: Scan, filesize: int, c: byte)
    ensures Through(s, filesize, [c]) == Step(s, filesize, c)
  {
    assert [c][1..] == [];
  }

  /** One byte more behind a text. */
  lemma ThroughLast(s: Scan, filesize: int, text: bytes)
    requires text != []
    ensures var n := |text| - 1;
            Through(s, filesize, text)
            == match Through(s, filesize, text[..n])
               case Refused => Refused
               case Read(t) => Step(t, filesize, text[n])
  {
    hide Step, Through;
    var n := |text| - 1;
    assert text == text[..n] + [text[n]];
    ThroughJoins(s, filesize, text[..n], [text[n]]);
    match Through(s, filesize, text[..n])
    case Refused =>
    case Read(t) => ThroughByte(t, filesize, text[n]);
  }

  /** The state in which blanks leave the parser. */
  function AfterBlank(state: int): int {
    match state
    case 1 => 2
    case 4 => 5
    case 8 => 9
    case _ => state
  }

  /** Blanks are read over, before and behind every number. */
  lemma {:induction false} BlanksRead(s: Scan, filesize: nat, blanks: bytes)
    requires 0 <= s.state <= 9 && Blanks(blanks)
    ensures Through(s, filesize, blanks) == Read(if blanks == [] then s else s.(state := AfterBlank(s.state)))
    decreases |blanks|
  {
    if blanks != [] {
      ClassesAre(blanks[0]);
      assert Step(s, filesize, blanks[0]) == Read(s.(state := AfterBlank(s.state))) by {
        hide Wrap, AddSuffix, Added;
      }
      hide Step;
      BlanksRead(s.(state := AfterBlank(s.state)), filesize, blanks[1..]);
    }
  }

  /** Reading a number where one may begin: after the list's start, a comma or a hyphen. */
  function NumberRead(s: Scan, n: int): Scan {
    if s.state == 3 then s.(state := 4, to := n)
    else if s.state == 7 then s.(state := 8, count := n)
    else s.(state := 1, from := n)
  }

  /**
   * The number that is kept: the true one if it fits. In a file of less than 2^63 / 10 bytes a number that has wrapped
   * around lies behind the end like the true one.
   */
  predicate Agrees(kept: int, value: int, filesize: nat) {
    && kept >= 0
    && (value < OFF_T / 2 ==> kept == value)
    && (filesize <= OFF_T / 20 ==> kept == value || (kept >= filesize && value >= filesize))
  }

  function Number(s: Scan): int {
    match s.state
    case 4 => s.to
    case 8 => s.count
    case _ => s.from
  }

  /** A number of any length is refused only if it does not fit, or is a first byte beyond the file. */
  predicate NumberWell(s: Scan, filesize: nat, value: int, o: Outcome) {
    match o
    case Refused => value >= OFF_T / 2 || (s.state in {0, 6} && value >= filesize)
    case Read(t) => t == NumberRead(s, Number(t)) && Agrees(Number(t), value, filesize)
  }

  lemma NextDigit(s: Scan, filesize: nat, t: Scan, value: int, c: byte)
    requires s.state in {0, 3, 6, 7} && IsDigit(c) && value >= 0 && NumberWell(s, filesize, value, Read(t))
    requires Number(t) < OFF_T / 2
    ensures NumberWell(s, filesize, 10 * value + (c - 0x30), Step(t, filesize, c))
  {
    var m, d := Number(t), c - 0x30;
    Multiplied(m, d);
    hide Wrap;
  }

  /** What a product that has not become smaller can be. */
  lemma Multiplied(m: int, d: int)
    requires 0 <= m < OFF_T / 2 && 0 <= d <= 9
    ensures 10 * m + d < OFF_T / 2 ==> Wrap(Wrap(m * 10) + d) == 10 * m + d
    ensures 10 * m + d >= OFF_T / 2 ==> m >= OFF_T / 20
    ensures Wrap(Wrap(m * 10) + d) < OFF_T / 2
  {
  }

  /** Digits, however many, and whatever zeros they begin with. */
  lemma {:induction false} DigitsRead(s: Scan, filesize: nat, digits: bytes)
    requires s.state in {0, 3, 6, 7} && Digits(digits) && digits != [] && filesize < OFF_T / 2
    ensures NumberWell(s, filesize, NumberOf(digits), Through(s, filesize, digits))
    ensures Through(s, filesize, digits).Read? ==> Number(Through(s, filesize, digits).scan) < OFF_T / 2
    decreases |digits|
  {
    var n := |digits| - 1;
    ClassesAre(digits[n]);
    if n == 0 {
      ThroughByte(s, filesize, digits[0]);
      assert digits == [digits[0]];
      assert NumberOf(digits[..0]) == 0;
    } else {
      DigitsRead(s, filesize, digits[..n]);
      ThroughLast(s, filesize, digits);
      DigitsHaveValue(digits[..n]);
      hide Through, Step;
      match Through(s, filesize, digits[..n])
      case Refused =>
      case Read(t) => 
        NextDigit(s, filesize, t, NumberOf(digits[..n]), digits[n]);
        NumberBelow(t, filesize, digits[n]);
    }
  }

  lemma NumberBelow(t: Scan, filesize: nat, c: byte)
    requires IsDigit(c) && t.state in {1, 4, 8}
    ensures Step(t, filesize, c).Read? ==> Number(Step(t, filesize, c).scan) < OFF_T / 2
  {
  }

  /** An entry as far as its hyphen. */
  lemma FrontRead(s: Scan, filesize: nat, e: Entry)
    requires s.state in {0, 6} && IsEntry(e) && filesize < OFF_T / 2
    ensures match Through(s, filesize, Front(e) + [MINUS])
            case Refused => e.first != [] && (NumberOf(e.first) >= OFF_T / 2 || NumberOf(e.first) >= filesize)
            case Read(t) =>
              if e.first == [] then t == s.(state := 7)
              else t == s.(state := 3, from := t.from) && Agrees(t.from, NumberOf(e.first), filesize)
  {
    hide Through, NumberOf, Agrees, Digits, Blanks;
    BlanksRead(s, filesize, e.before);
    ThroughJoins(s, filesize, e.before, e.first);
    ThroughJoins(s, filesize, e.before + e.first, e.gap);
    ThroughJoins(s, filesize, Front(e), [MINUS]);
    if e.first == [] {
      assert e.before + e.first == e.before && e.before + e.gap == e.before;
      ThroughByte(s, filesize, MINUS);
    } else {
      DigitsRead(s, filesize, e.first);
      match Through(s, filesize, e.first)
      case Refused =>
      case Read(t) =>
        BlanksRead(t, filesize, e.gap);
        ThroughByte(t, filesize, MINUS);
        ThroughByte(t.(state := 2), filesize, MINUS);
    }
  }

  /** An entry from behind its hyphen on. */
  lemma BackRead(s: Scan, filesize: nat, e: Entry)
    requires s.state in {3, 7} && IsEntry(e) && (s.state == 7 ==> e.second != []) && filesize < OFF_T / 2
    ensures match Through(s, filesize, Back(e))
            case Refused => e.second != [] && NumberOf(e.second) >= OFF_T / 2
            case Read(t) =>
              if e.second == [] then t == s
              else if s.state == 3 then
                t == s.(state := t.state, to := t.to) && t.state in {4, 5} && Agrees(t.to, NumberOf(e.second), filesize)
              else t == s.(state := t.state, count := t.count) && t.state in {8, 9}
                   && Agrees(t.count, NumberOf(e.second), filesize)
  {
    hide Through, NumberOf, Agrees, Digits, Blanks, Step;
    BlanksRead(s, filesize, e.next);
    ThroughJoins(s, filesize, e.next, e.second);
    ThroughJoins(s, filesize, e.next + e.second, e.after);
    if e.second == [] {
      assert e.next + e.second == e.next;
      BlanksRead(s, filesize, e.after);
    } else {
      DigitsRead(s, filesize, e.second);
      match Through(s, filesize, e.second)
      case Refused =>
      case Read(t) => BlanksRead(t, filesize, e.after);
    }
  }

  /** What the comma or the end behind a range makes of it. */
  ghost predicate EndsWell(t: Scan, filesize: nat, spec: Spec, ranges: seq<Range>) {
    && Step(t, filesize, COMMA) == Finish(t, filesize)
    && if Satisfiable(spec, filesize) then
         && Finish(t, filesize).Read? && Finish(t, filesize).scan.state == 6
         && Finish(t, filesize).scan.ranges == ranges + [Clamped(spec, filesize)]
       else Finish(t, filesize).Refused?
  }

  lemma EndsOn(t: Scan, filesize: nat, from: nat)
    requires t.state == 3 && Agrees(t.from, from, filesize) && (from < OFF_T / 2 || filesize <= OFF_T / 20)
    requires filesize < OFF_T / 2
    ensures EndsWell(t, filesize, FromOn(from), t.ranges)
  {
    hide Wrap;
  }

  lemma EndsAt(t: Scan, filesize: nat, from: nat, to: nat)
    requires t.state in {4, 5} && Agrees(t.from, from, filesize) && Agrees(t.to, to, filesize)
    requires (from < OFF_T / 2 && to < OFF_T / 2) || filesize <= OFF_T / 20
    requires filesize < OFF_T / 2
    ensures EndsWell(t, filesize, FromTo(from, to), t.ranges)
  {
    hide Wrap;
  }

  lemma EndsLast(t: Scan, filesize: nat, count: nat)
    requires t.state in {8, 9} && Agrees(t.count, count, filesize) && (count < OFF_T / 2 || filesize <= OFF_T / 20)
    requires filesize < OFF_T / 2
    ensures EndsWell(t, filesize, Suffix(count), t.ranges)
  {
    hide Wrap;
  }

  /** A range refused at once does not fit or cannot be satisfied; one that is read may still be refused at its end. */
  lemma EntryRead(s: Scan, filesize: nat, e: Entry)
    requires s.state in {0, 6} && IsEntry(e) && filesize < OFF_T / 2
    ensures match Through(s, filesize, Text(e))
            case Refused => !Fits(Meaning(e)) || !Satisfiable(Meaning(e), filesize)
            case Read(t) => Fits(Meaning(e)) || filesize <= OFF_T / 20 ==> EndsWell(t, filesize, Meaning(e), s.ranges)
  {
    hide Through, NumberOf, Agrees, Digits, Blanks, Step, EndsWell, Finish, Front, Back;
    DigitsHaveValue(e.first);
    DigitsHaveValue(e.second);
    FrontRead(s, filesize, e);
    ThroughJoins(s, filesize, Front(e) + [MINUS], Back(e));
    match Through(s, filesize, Front(e) + [MINUS])
    case Refused =>
    case Read(t) =>
      BackRead(t, filesize, e);
      match Through(t, filesize, Back(e))
      case Refused =>
      case Read(u) =>
        if Fits(Meaning(e)) || filesize <= OFF_T / 20 {
          match Meaning(e)
          case Suffix(count) => EndsLast(u, filesize, count);
          case FromOn(from) => EndsOn(u, filesize, from);
          case FromTo(from, to) => EndsAt(u, filesize, from, to);
        }
  }

  predicate AllFit(specs: seq<Spec>) {
    forall i :: 0 <= i < |specs| ==> Fits(specs[i])
  }

  /** Whether a list is accepted, and with which ranges. */
  ghost predicate ListWell(s: Scan, filesize: nat, specs: seq<Spec>, o: Outcome) {
    && (AllFit(specs) && AllSatisfiable(specs, filesize) ==> o.Read?)
    && (o.Read? && (AllFit(specs) || filesize <= OFF_T / 20) ==>
          AllSatisfiable(specs, filesize) && o.scan.ranges == s.ranges + AllClamped(specs, filesize))
  }

  lemma Parts(specs: seq<Spec>, filesize: nat)
    requires specs != []
    ensures AllFit(specs) <==> Fits(specs[0]) && AllFit(specs[1..])
    ensures AllSatisfiable(specs, filesize) <==> Satisfiable(specs[0], filesize) && AllSatisfiable(specs[1..], filesize)
    ensures AllSatisfiable(specs, filesize) ==>
              AllClamped(specs, filesize) == [Clamped(specs[0], filesize)] + AllClamped(specs[1..], filesize)
  {
    hide Satisfiable, Clamped, Fits;
    assert specs == [specs[0]] + specs[1..];
  }

  lemma Refuses(s: Scan, filesize: nat, specs: seq<Spec>)
    requires specs != [] && (!Fits(specs[0]) || !Satisfiable(specs[0], filesize))
    ensures ListWell(s, filesize, specs, Refused)
  {
    Parts(specs, filesize);
  }

  lemma Prepends(s: Scan, t: Scan, filesize: nat, specs: seq<Spec>, o: Outcome)
    requires specs != [] && Satisfiable(specs[0], filesize) && (Fits(specs[0]) || filesize <= OFF_T / 20)
    requires t.ranges == s.ranges + [Clamped(specs[0], filesize)] && ListWell(t, filesize, specs[1..], o)
    ensures ListWell(s, filesize, specs, o)
  {
    hide Satisfiable, Clamped, Fits, AllFit, AllSatisfiable, AllClamped;
    Parts(specs, filesize);
    if AllSatisfiable(specs, filesize) {
      assert s.ranges + [Clamped(specs[0], filesize)] + AllClamped(specs[1..], filesize)
             == s.ranges + ([Clamped(specs[0], filesize)] + AllClamped(specs[1..], filesize));
    }
  }

  lemma NoneWell(s: Scan, filesize: nat)
    ensures ListWell(s, filesize, [], Read(s))
  {
  }

  /** What comes behind an entry: the end, or a comma and more. */
  lemma RestRead(s: Scan, filesize: nat, rest: bytes)
    ensures Run(s, filesize, []) == Finish(s, filesize)
    ensures Run(s, filesize, [COMMA] + rest)
            == match Step(s, filesize, COMMA)
               case Refused => Refused
               case Read(t) => Run(t, filesize, rest)
  {
    assert ([COMMA] + rest)[1..] == rest;
  }

  lemma FirstOf(es: seq<Entry>)
    requires es != [] && AreEntries(es)
    ensures Meanings(es)[0] == Meaning(es[0]) && AreEntries(es[1..]) && Meanings(es)[1..] == Meanings(es[1..])
    ensures TextAll(es) == Text(es[0]) + if |es| == 1 then [] else [COMMA] + TextAll(es[1..])
  {
    hide IsEntry, Meaning, Text;
    if |es| > 1 {
      Associative(Text(es[0]), [COMMA], TextAll(es[1..]));
    }
  }

  lemma {:induction false} ListRead(s: Scan, filesize: nat, es: seq<Entry>)
    requires s.state in {0, 6} && es != [] && AreEntries(es) && filesize < OFF_T / 2
    ensures ListWell(s, filesize, Meanings(es), Run(s, filesize, TextAll(es)))
    decreases |es|
  {
    FirstOf(es);
    EntryRead(s, filesize, es[0]);
    hide Step, Finish, Through, Run, Text, TextAll, IsEntry, AreEntries, Meaning, Meanings, Fits, Satisfiable, ListWell;
    var specs := Meanings(es);
    var rest := if |es| == 1 then [] else [COMMA] + TextAll(es[1..]);
    RunThrough(s, filesize, Text(es[0]), rest);
    match Through(s, filesize, Text(es[0]))
    case Refused => Refuses(s, filesize, specs);
    case Read(t) =>
      RestRead(t, filesize, if |es| == 1 then [] else TextAll(es[1..]));
      if !Fits(specs[0]) && filesize > OFF_T / 20 {
        Unknown(s, filesize, specs, Run(s, filesize, TextAll(es)));
      } else if Satisfiable(specs[0], filesize) {
        var u := Finish(t, filesize).scan;
        if |es| == 1 {
          NoneWell(u, filesize);
        } else {
          ListRead(u, filesize, es[1..]);
        }
        Prepends(s, u, filesize, specs, Run(s, filesize, TextAll(es)));
      } else {
        Refuses(s, filesize, specs);
      }
  }

  lemma Unknown(s: Scan, filesize: nat, specs: seq<Spec>, o: Outcome)
    requires specs != [] && !Fits(specs[0]) && filesize > OFF_T / 20
    ensures ListWell(s, filesize, specs, o)
  {
  }

  /** What has been read of an entry, by the state of the parser. */
  ghost predicate Shaped(e: Entry, state: int, item: bytes) {
    && Blanks(e.before) && Blanks(e.gap) && Blanks(e.next) && Blanks(e.after) && Digits(e.first) && Digits(e.second)
    && (e.first == [] <==> state in {0, 6, 7, 8, 9}) && (e.second == [] <==> state in {0, 6, 1, 2, 3, 7})
    && (state !in {2, 3, 4, 5} ==> e.gap == []) && (state <= 2 || state == 6 ==> e.next == [])
    && (state !in {5, 9} ==> e.after == [])
    && item == if state in {3, 4, 5, 7, 8, 9} then Text(e) else Front(e)
  }

  /** Which bytes a state takes inside an entry, and where they lead. */
  predicate Takes(state: int, c: byte, next: int) {
    if IsDigit(c) then
      state !in {2, 5, 9} && next == if state in {0, 1, 6} then 1 else if state <= 4 then 4 else 8
    else if c == MINUS then state in {0, 1, 2, 6} && next == if state in {0, 6} then 7 else 3
    else IsBlank(c) && next == AfterBlank(state)
  }

  lemma RunsGrow(s: bytes, c: byte)
    ensures Blanks(s) && IsBlank(c) ==> Blanks(s + [c])
    ensures Digits(s) && IsDigit(c) ==> Digits(s + [c])
    ensures Blanks([])
  {
  }

  lemma FrontGrows(e: Entry, state: int, item: bytes, c: byte, t: int) returns (r: Entry)
    requires state in {0, 1, 2, 6} && Shaped(e, state, item) && Takes(state, c, t)
    ensures Shaped(r, t, item + [c])
  {
    hide Blanks, Digits, IsDigit, IsBlank;
    if IsDigit(c) {
      RunsGrow(e.first, c);
      r := e.(first := e.first + [c]);
      assert Front(r) == Front(e) + [c];
    } else if c == MINUS {
      r := e;
      assert Text(r) == Front(e) + [c];
    } else if state in {0, 6} {
      RunsGrow(e.before, c);
      r := e.(before := e.before + [c]);
      assert Front(r) == Front(e) + [c];
    } else {
      RunsGrow(e.gap, c);
      r := e.(gap := e.gap + [c]);
      assert Front(r) == Front(e) + [c];
    }
  }

  lemma BackGrows(e: Entry, state: int, item: bytes, c: byte, t: int) returns (r: Entry)
    requires state in {3, 4, 5, 7, 8, 9} && Shaped(e, state, item) && Takes(state, c, t)
    ensures Shaped(r, t, item + [c])
  {
    hide Blanks, Digits, IsDigit, IsBlank;
    if IsDigit(c) {
      RunsGrow(e.second, c);
      r := e.(second := e.second + [c]);
    } else if state in {3, 7} {
      RunsGrow(e.next, c);
      r := e.(next := e.next + [c]);
    } else {
      RunsGrow(e.after, c);
      r := e.(after := e.after + [c]);
    }
    assert Back(r) == Back(e) + [c];
    assert Front(r) == Front(e);
    hide Front, Back;
    Associative(Front(e) + [MINUS], Back(e), [c]);
  }

  lemma StepTakes(s: Scan, filesize: nat, c: byte)
    requires 0 <= s.state <= 9 && c != COMMA && Step(s, filesize, c).Read?
    ensures var t := Step(s, filesize, c).scan;
            0 <= t.state <= 9 && Takes(s.state, c, t.state) && (s.state in {0, 6} && t.state == s.state ==> t == s)
  {
    hide Wrap;
  }

  /** Whatever is read without a comma has the shape of an entry, as far as it goes. */
  lemma {:induction false} ItemShaped(s: Scan, filesize: nat, item: bytes) returns (e: Entry)
    requires s.state in {0, 6} && COMMA !in item && Through(s, filesize, item).Read?
    ensures var t := Through(s, filesize, item).scan;
            0 <= t.state <= 9 && Shaped(e, t.state, item) && (t.state in {0, 6} ==> t == s)
    decreases |item|
  {
    if item == [] {
      e := Entry([], [], [], [], [], []);
    } else {
      hide Shaped, Through, Step, Takes;
      var n := |item| - 1;
      ThroughLast(s, filesize, item);
      e := ItemShaped(s, filesize, item[..n]);
      var t := Through(s, filesize, item[..n]).scan;
      StepTakes(t, filesize, item[n]);
      var u := Step(t, filesize, item[n]).scan;
      assert item == item[..n] + [item[n]];
      if t.state in {0, 1, 2, 6} {
        e := FrontGrows(e, t.state, item[..n], item[n], u.state);
      } else {
        e := BackGrows(e, t.state, item[..n], item[n], u.state);
      }
    }
  }

  /** A text up to its first comma, and what is behind that. */
  lemma {:induction false} CommaSplits(text: bytes) returns (item: bytes, rest: bytes)
    ensures COMMA !in item
    ensures (text == item && rest == []) || text == item + ([COMMA] + rest)
  {
    if text == [] {
      item, rest := [], [];
    } else if text[0] == COMMA {
      item, rest := [], text[1..];
    } else {
      item, rest := CommaSplits(text[1..]);
      item := [text[0]] + item;
      assert text == [text[0]] + text[1..];
    }
  }

  lemma ShapedEnds(e: Entry, t: Scan, item: bytes, filesize: nat)
    requires Shaped(e, t.state, item) && 0 <= t.state <= 9
    requires Step(t, filesize, COMMA).Read? || (Finish(t, filesize).Read? && t.state != 0)
    ensures IsEntry(e) && item == Text(e)
    ensures Step(t, filesize, COMMA).Read? ==> Step(t, filesize, COMMA).scan.state == 6
  {
    hide Wrap;
  }

  /** A text that is accepted is nothing but blanks, or a list of entries. */
  lemma {:induction false} AcceptedIsList(s: Scan, filesize: nat, text: bytes) returns (es: seq<Entry>)
    requires s.state in {0, 6} && Run(s, filesize, text).Read?
    ensures AreEntries(es)
    ensures if es == [] then Blanks(text) && s.state == 0 && Run(s, filesize, text) == Read(s) else text == TextAll(es)
    decreases |text|
  {
    var item, rest := CommaSplits(text);
    hide Step, Finish, Through, Run, Text, TextAll, IsEntry, Shaped;
    var behind := if text == item then [] else [COMMA] + rest;
    assert text == item + behind;
    RunThrough(s, filesize, item, behind);
    var t := Through(s, filesize, item).scan;
    var e := ItemShaped(s, filesize, item);
    RestRead(t, filesize, rest);
    if text == item && t.state == 0 {
      es := [];
      OnlyBlanks(e, t, text, filesize);
    } else {
      ShapedEnds(e, t, item, filesize);
      if text == item {
        es := [e];
      } else {
        es := AcceptedIsList(Step(t, filesize, COMMA).scan, filesize, rest);
        es := [e] + es;
      }
      FirstOf(es);
    }
  }

  lemma OnlyBlanks(e: Entry, t: Scan, item: bytes, filesize: nat)
    requires Shaped(e, t.state, item) && t.state == 0
    ensures Blanks(item) && Finish(t, filesize) == Read(t)
  {
  }

  /**
   * A list of ranges with any blanks around its numbers, all of which fit, is accepted if and only if every range in it
   * can be satisfied, and gives them in order, clamped to the file.
   */
  lemma ListsRead(filesize: nat, es: seq<Entry>)
    requires es != [] && AreEntries(es) && AllFit(Meanings(es)) && filesize < OFF_T / 2
    ensures var o := Run(INITIAL, filesize, TextAll(es));
            && (o.Read? <==> AllSatisfiable(Meanings(es), filesize))
            && (o.Read? ==> o.scan.ranges == AllClamped(Meanings(es), filesize))
  {
    hide Run, TextAll, AreEntries, Meanings, AllFit, AllSatisfiable, AllClamped;
    ListRead(INITIAL, filesize, es);
    if Run(INITIAL, filesize, TextAll(es)).Read? {
      assert [] + AllClamped(Meanings(es), filesize) == AllClamped(Meanings(es), filesize);
    }
  }

  /**
   * Whatever is accepted is blank or such a list. In a file of no more than 2^63 / 10 bytes its ranges are those of the
   * list, clamped to the file, whether or not the numbers fit.
   */
  lemma AcceptedRead(filesize: nat, text: bytes) returns (es: seq<Entry>)
    requires filesize < OFF_T / 2 && Run(INITIAL, filesize, text).Read?
    ensures AreEntries(es) && (if es == [] then Blanks(text) else text == TextAll(es))
    ensures filesize <= OFF_T / 20 || AllFit(Meanings(es)) ==>
              && AllSatisfiable(Meanings(es), filesize)
              && Run(INITIAL, filesize, text).scan.ranges == AllClamped(Meanings(es), filesize)
  {
    hide Run, TextAll, AreEntries, Blanks;
    es := AcceptedIsList(INITIAL, filesize, text);
    if es != [] {
      ListRead(INITIAL, filesize, es);
    }
  }

  /** Blanks alone ask for nothing. */
  lemma BlanksAccepted(filesize: nat, text: bytes)
    requires Blanks(text)
    ensures Run(INITIAL, filesize, text) == Read(INITIAL)
  {
    BlanksRead(INITIAL, filesize, text);
    RunThrough(INITIAL, filesize, text, []);
    assert text + [] == text;
  }

  /** A range as it is printed, without blanks. */
  function Print(spec: Spec): bytes {
    match spec
    case FromTo(from, to) => Decimal(from) + [MINUS] + Decimal(to)
    case FromOn(from) => Decimal(from) + [MINUS]
    case Suffix(count) => [MINUS] + Decimal(count)
  }

  function PrintAll(specs: seq<Spec>): bytes
    requires specs != []
  {
    if |specs| == 1 then Print(specs[0]) else Print(specs[0]) + [COMMA] + PrintAll(specs[1..])
  }

  function AsEntry(spec: Spec): Entry {
    match spec
    case FromTo(from, to) => Entry([], Decimal(from), [], [], Decimal(to), [])
    case FromOn(from) => Entry([], Decimal(from), [], [], [], [])
    case Suffix(count) => Entry([], [], [], [], Decimal(count), [])
  }

  function AsEntries(specs: seq<Spec>): (es: seq<Entry>)
    ensures |es| == |specs|
  {
    seq(|specs|, i requires 0 <= i < |specs| => AsEntry(specs[i]))
  }

  lemma DecimalDigits(n: nat)
    ensures Digits(Decimal(n)) && Decimal(n) != [] && NumberOf(Decimal(n)) == n
  {
    NumberOfDecimal(n);
    forall i | 0 <= i < |Decimal(n)|
      ensures '0' <= Decimal(n)[i] as char <= '9'
    {
      ClassesAre(Decimal(n)[i]);
    }
  }

  lemma EmptyDigits()
    ensures Digits([])
  {
  }

  lemma BareText(a: bytes, b: bytes)
    ensures Text(Entry([], a, [], [], b, [])) == a + [MINUS] + b
    ensures a + [MINUS] + [] == a + [MINUS] && [] + [MINUS] == [MINUS]
  {
    assert [] + a + [] == a && [] + b + [] == b;
  }

  lemma PrintedEntry(spec: Spec)
    ensures IsEntry(AsEntry(spec)) && Meaning(AsEntry(spec)) == spec && Text(AsEntry(spec)) == Print(spec)
  {
    hide Decimal, NumberOf, Digits, Text;
    EmptyDigits();
    BareText(AsEntry(spec).first, AsEntry(spec).second);
    match spec
    case FromTo(from, to) =>
      DecimalDigits(from);
      DecimalDigits(to);
    case FromOn(from) => DecimalDigits(from);
    case Suffix(count) => DecimalDigits(count);
  }

  lemma {:induction false} PrintedEntries(specs: seq<Spec>)
    requires specs != []
    ensures AreEntries(AsEntries(specs)) && Meanings(AsEntries(specs)) == specs
    ensures TextAll(AsEntries(specs)) == PrintAll(specs)
  {
    hide AsEntry, IsEntry, Meaning, Text, Print;
    forall i | 0 <= i < |specs|
      ensures IsEntry(AsEntries(specs)[i]) && Meaning(AsEntries(specs)[i]) == specs[i]
    {
      PrintedEntry(specs[i]);
    }
    PrintedEntry(specs[0]);
    if |specs| > 1 {
      PrintedEntries(specs[1..]);
      assert AsEntries(specs)[1..] == AsEntries(specs[1..]);
    }
  }

  /** So a printed list is read back as its ranges, clamped to the file, exactly when all can be satisfied. */
  lemma PrintedListRead(filesize: nat, specs: seq<Spec>)
    requires specs != [] && AllFit(specs) && filesize < OFF_T / 2
    ensures Run(INITIAL, filesize, PrintAll(specs)).Read? <==> AllSatisfiable(specs, filesize)
    ensures AllSatisfiable(specs, filesize) ==>
              Run(INITIAL, filesize, PrintAll(specs)).scan.ranges == AllClamped(specs, filesize)
  {
    hide Run, AllSatisfiable, Fits, AsEntries, TextAll, PrintAll;
    PrintedEntries(specs);
    ListsRead(filesize, AsEntries(specs));
  }
}

/**
 The header parser as a machine that reads one byte at a time. It keeps positions in the
 buffer instead of text, so that a call can go on where the last one stopped.
 */
module HeaderParsing {
  import opened Bytes
  import opened HttpNames
  import opened HeaderTable
  import opened HeaderValues

  const MAX_HEADERS_SIZE := 8 * 1024

  /** The largest arena: the last multiple of 1024 that an `unsigned short` can count. */
  const MAX_ARENA := 63 * 1024

  /** The largest table: the last multiple of 10 that an `unsigned short` can count. */
  const MAX_ENTRIES := 65530

  /** The headers, and how many bytes of the arena they have used up. */
  datatype Store = Store(table: Table, used: nat)

  /** What an addition of `size` bytes asks of the arena before it cleans the value. */
  function Asked(d: Dictionary, st: Store, id: nat, name: bytes, size: nat, replace: bool): nat {
    match Find(d, st.table, KeyFor(id, name))
    case None => (if id == UNKNOWN then |name| + 1 else 0) + size + 1
    case Some(i) => if replace then size + 1 else |st.table[i].value| + size + 3
  }

  /** What it uses in the end. */
  function Taken(d: Dictionary, st: Store, id: nat, name: bytes, value: bytes, replace: bool): nat {
    match Find(d, st.table, KeyFor(id, name))
    case None => (if id == UNKNOWN then |name| + 1 else 0) + |value| + 1
    case Some(i) => if replace then |value| + 1 else |st.table[i].value| + 2 + |value| + 1
  }

  /** A value of `size` bytes is refused. */
  predicate Full(d: Dictionary, st: Store, id: nat, name: bytes, size: nat, replace: bool) {
    st.used + Asked(d, st, id, name, size, replace) > MAX_ARENA ||
    (|st.table| >= MAX_ENTRIES && Find(d, st.table, KeyFor(id, name)).None?)
  }

  /** The limits: 63 times 1024 bytes, and 65530 headers. */
  lemma FullIs(d: Dictionary, st: Store, id: nat, name: bytes, size: nat, replace: bool)
    ensures Full(d, st, id, name, size, replace)
            <==> st.used + Asked(d, st, id, name, size, replace) > 64512
                 || (|st.table| >= 65530 && Find(d, st.table, KeyFor(id, name)).None?)
  {
    hide Find, Asked;
  }

  /** Add a value as it was received; a full store refuses it. */
  function AddRaw(d: Dictionary, st: Store, id: nat, name: bytes, raw: bytes, replace: bool): Option<Store> {
    if Full(d, st, id, name, |raw|, replace) then None
    else
      var value := Clean(raw);
      Some(Store(Add(d, st.table, id, name, value, replace), st.used + Taken(d, st, id, name, value, replace)))
  }

  /** The fields of the parser. Zero means "no token" and "no end". */
  datatype Scan = Scan(
    offset: nat, token: nat, end: nat, name: nat, namelen: nat, state: nat, header: nat, nCRLFs: nat, store: Store)

  const INITIAL := Scan(0, 0, 0, 0, 0, 0, UNKNOWN, 1, Store([], 0))

  datatype Parsed =
    | NotEnd(scan: Scan)
    | End(store: Store, bodyOffset: nat)
    | WrongHeaders
    | TooLarge
    | NoMemory

  datatype Stepped = Go(scan: Scan) | Stop(result: Parsed)

  /** Every slice the scan remembers lies within the bytes already read. */
  predicate Within(d: Dictionary, s: Scan) {
    && s.offset <= MAX_HEADERS_SIZE
    && (s.header < |d| || s.header == UNKNOWN)
    && (s.state > 0 ==> s.offset > 0)
    && match s.state
       case 0 => s.token == 0 && Named(s)
       case 1 => s.token < s.offset
       case 2 => s.token + s.namelen <= s.offset
       case 3 => s.token == 0 && Named(s)
       case 4 => 0 < s.token < s.offset && (s.end == 0 || s.token < s.end <= s.offset) && Named(s)
       case 5 => Named(s) && (s.token == 0 || s.token < s.end <= s.offset)
       case 6 => Named(s) && (s.token == 0 || s.token < s.end <= s.offset)
       case 7 => Named(s) && (s.token == 0 || s.token < s.end <= s.offset)
       case _ => false
  }

  predicate Named(s: Scan) {
    s.header == UNKNOWN ==> s.name + s.namelen <= s.offset
  }

  predicate IsSingle(d: Dictionary, header: nat) {
    header < |d| && d[header].single
  }

  /** Consume one byte. */
  function Advance(s: Scan): Stepped {
    if s.offset + 1 > MAX_HEADERS_SIZE then Stop(TooLarge) else Go(s.(offset := s.offset + 1))
  }

  /** A header that may come only once has come again, as far as the search for it looks. */
  function Repeats(d: Dictionary, t: Table, header: nat): bool
    requires header < |d|
  {
    t != [] &&
    if t[0].id == header then true
    else if Rank(d, t[0].id) > d[header].kind then false
    else Repeats(d, t[1..], header)
  }

  /** ':' after a name of the given extent. */
  function Colon(d: Dictionary, strict: bool, buf: bytes, s: Scan, namelen: nat): Stepped
    requires s.token + namelen <= |buf|
  {
    var header := Lookup(d, buf[s.token..s.token + namelen]);
    if header != UNKNOWN && header < |d| && strict && !d[header].commas && Repeats(d, s.store.table, header) then
      Stop(WrongHeaders)
    else
      Advance(s.(namelen := namelen, header := header, name := if header == UNKNOWN then s.token else s.name,
                 token := 0, state := 3))
  }

  /** The next line is not a continuation: the header that was read last is complete. */
  function Flush(d: Dictionary, buf: bytes, s: Scan): Option<Store>
    requires Within(d, s) && s.state == 6 && s.offset <= |buf|
  {
    if s.token == 0 then Some(s.store)
    else
      var name := if s.header == UNKNOWN then buf[s.name..s.name + s.namelen] else d[s.header].name;
      AddRaw(d, s.store, s.header, name, buf[s.token..s.end], false)
  }

  function Step(d: Dictionary, strict: bool, buf: bytes, s: Scan): Stepped
    requires Within(d, s) && s.offset < |buf|
  {
    var c := buf[s.offset];
    match s.state
    case 0 =>
      if c == COLON then Stop(WrongHeaders)
      else if SPACE < c < 127 then Advance(s.(token := s.offset, nCRLFs := 0, state := 1))
      else if c == CR then Advance(s.(state := 5))
      else if c == LF then Stop(End(s.store, s.offset + 1))
      else Stop(WrongHeaders)
    case 1 =>
      if c == COLON then Colon(d, strict, buf, s, s.offset - s.token)
      else if IsBlank(c) then Advance(s.(namelen := s.offset - s.token, state := 2))
      else if c < SPACE || c >= 127 then Stop(WrongHeaders)
      else Advance(s)
    case 2 =>
      if c == COLON then Colon(d, strict, buf, s, s.namelen)
      else if IsBlank(c) then Advance(s)
      else Stop(WrongHeaders)
    case 3 =>
      if c == CR then Advance(s.(state := 5))
      else if c == LF then Advance(s.(nCRLFs := 1, state := 6))
      else if c > SPACE then Advance(s.(token := s.offset, end := 0, state := 4))
      else if IsBlank(c) then Advance(s)
      else Stop(WrongHeaders)
    case 4 =>
      var end := if s.end == 0 then s.offset else s.end;
      if c == CR then Advance(s.(end := end, state := 5))
      else if c == LF then Advance(s.(end := end, nCRLFs := 1, state := 6))
      else if IsBlank(c) then Advance(s.(end := end))
      else if c > SPACE then
        if s.end != 0 && IsSingle(d, s.header) then (if strict then Stop(WrongHeaders) else Advance(s))
        else Advance(s.(end := 0))
      else Stop(WrongHeaders)
    case 5 =>
      if c != LF then Stop(WrongHeaders)
      else if s.nCRLFs == 1 then Stop(End(s.store, s.offset + 1))
      else Advance(s.(nCRLFs := 1, state := 6))
    case 6 =>
      if IsBlank(c) then Advance(s.(nCRLFs := 0, state := 7))
      else if c == COLON || !(c == CR || c == LF || SPACE < c < 127) then Stop(WrongHeaders)
      else
        (match Flush(d, buf, s)
         case None => Stop(NoMemory)
         case Some(store) =>
           if c == CR then Advance(s.(store := store, state := 5))
           else if c == LF then Stop(End(store, s.offset + 1))
           else Advance(s.(store := store, token := s.offset, nCRLFs := 0, state := 1)))
    case 7 =>
      if c == CR then Advance(s.(state := 5))
      else if c == LF then Advance(s.(nCRLFs := 1, state := 6))
      else if c > SPACE then
        if s.token != 0 then
          if IsSingle(d, s.header) then (if strict then Stop(WrongHeaders) else Advance(s))
          else Advance(s.(end := 0, state := 4))
        else Advance(s.(token := s.offset, end := 0, state := 4))
      else if IsBlank(c) then Advance(s)
      else Stop(WrongHeaders)
  }

  lemma NameWithin(d: Dictionary, strict: bool, buf: bytes, s: Scan)
    requires Within(d, s) && s.offset < |buf| && s.state <= 2
    ensures match Step(d, strict, buf, s)
            case Go(s') => Within(d, s') && s'.offset == s.offset + 1
            case Stop(r) => !r.NotEnd?
  {
  }

  lemma ValueWithin(d: Dictionary, strict: bool, buf: bytes, s: Scan)
    requires Within(d, s) && s.offset < |buf| && (s.state == 3 || s.state == 4)
    ensures match Step(d, strict, buf, s)
            case Go(s') => Within(d, s') && s'.offset == s.offset + 1
            case Stop(r) => !r.NotEnd?
  {
  }

  lemma LineWithin(d: Dictionary, strict: bool, buf: bytes, s: Scan)
    requires Within(d, s) && s.offset < |buf| && s.state >= 5
    ensures match Step(d, strict, buf, s)
            case Go(s') => Within(d, s') && s'.offset == s.offset + 1
            case Stop(r) => !r.NotEnd?
  {
  }

  lemma StepWithin(d: Dictionary, strict: bool, buf: bytes, s: Scan)
    requires Within(d, s) && s.offset < |buf|
    ensures match Step(d, strict, buf, s)
            case Go(s') => Within(d, s') && s'.offset == s.offset + 1
            case Stop(r) => !r.NotEnd?
  {
    if s.state <= 2 {
      NameWithin(d, strict, buf, s);
    } else if s.state <= 4 {
      ValueWithin(d, strict, buf, s);
    } else {
      LineWithin(d, strict, buf, s);
    }
  }

  /** One call of the parser on a buffer. */
  function Run(d: Dictionary, strict: bool, buf: bytes, s: Scan): (r: Parsed)
    requires Within(d, s)
    decreases |buf| - s.offset
  {
    if s.offset >= |buf| then NotEnd(s)
    else
      StepWithin(d, strict, buf, s);
      match Step(d, strict, buf, s)
      case Go(s') => Run(d, strict, buf, s')
      case Stop(result) => result
  }

  /** A byte is read the same way in every buffer that agrees up to it. */
  lemma StepPrefix(d: Dictionary, strict: bool, buf: bytes, k: nat, s: Scan)
    requires Within(d, s) && s.offset < k <= |buf|
    ensures Step(d, strict, buf[..k], s) == Step(d, strict, buf, s)
  {
    assert forall i, j :: 0 <= i <= j <= k ==> buf[..k][i..j] == buf[i..j];
  }

  /**
     Resumption: a call on the first `k` bytes either answers what a call on all of them answers,
     or leaves a scan from which a later call on all of them gives that answer.
   */
  lemma {:induction false} Resumes(d: Dictionary, strict: bool, buf: bytes, k: nat, s: Scan)
    requires Within(d, s) && k <= |buf|
    ensures match Run(d, strict, buf[..k], s)
            case NotEnd(s') => Within(d, s') && s.offset <= s'.offset && Run(d, strict, buf, s') == Run(d, strict, buf, s)
            case r => Run(d, strict, buf, s) == r
    decreases |buf| - s.offset
  {
    if s.offset < k {
      StepPrefix(d, strict, buf, k, s);
      StepWithin(d, strict, buf, s);
      match Step(d, strict, buf, s)
      case Go(s') => Resumes(d, strict, buf, k, s');
      case Stop(_) =>
    }
  }

  /** Calls on longer and longer prefixes, until one of them answers. */
  function Feed(d: Dictionary, strict: bool, buf: bytes, cuts: seq<nat>, s: Scan): Parsed
    requires Within(d, s) && forall i :: 0 <= i < |cuts| ==> cuts[i] <= |buf|
  {
    if cuts == [] then Run(d, strict, buf, s)
    else
      Resumes(d, strict, buf, cuts[0], s);
      match Run(d, strict, buf[..cuts[0]], s)
      case NotEnd(s') => Feed(d, strict, buf, cuts[1..], s')
      case r => r
  }

  /** However the bytes arrive, the answer, the body offset and the table are those of one call on the whole. */
  lemma {:induction false} FeedIsRun(d: Dictionary, strict: bool, buf: bytes, cuts: seq<nat>, s: Scan)
    requires Within(d, s) && forall i :: 0 <= i < |cuts| ==> cuts[i] <= |buf|
    ensures Feed(d, strict, buf, cuts, s) == Run(d, strict, buf, s)
  {
    if cuts != [] {
      Resumes(d, strict, buf, cuts[0], s);
      match Run(d, strict, buf[..cuts[0]], s)
      case NotEnd(s') => FeedIsRun(d, strict, buf, cuts[1..], s');
      case _ =>
    }
  }
}

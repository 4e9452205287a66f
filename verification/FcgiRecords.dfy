/** Splitting a stream into records, and what the records make the receiver do. */
module FcgiRecords {
  import opened Bytes
  import opened FastCgi
  import opened NameValuePairs
  import opened Sequences

  /** What the buffer starts with: too little for a record, a header that is not one, or a whole record. */
  datatype Frame = Short | Bad | Whole(kind: byte, requestId: nat, content: bytes, size: nat)

  function FrameOf(buf: bytes): (f: Frame)
    ensures f.Whole? ==> HEADER_LEN + |f.content| <= f.size <= |buf| && |f.content| <= 0xffff
  {
    if |buf| < HEADER_LEN then Short
    else if buf[0] != VERSION || buf[1] == 0 || buf[1] > UNKNOWN_TYPE then Bad
    else
      var length := U16At(buf, 4);
      if |buf| < HEADER_LEN + length + buf[6] then Short
      else Whole(buf[1], U16At(buf, 2), buf[HEADER_LEN..HEADER_LEN + length], HEADER_LEN + length + buf[6])
  }

  function Values(pairs: seq<NameValue>): (r: seq<Event>)
    ensures |r| == |pairs|
  {
    seq(|pairs|, i requires 0 <= i < |pairs| => GetValuesResult(pairs[i]))
  }

  /** The callbacks of a record; empty streams and records the receiver does not expect cause none. */
  function EventsOf(kind: byte, requestId: nat, content: bytes): seq<Event> {
    if kind == GET_VALUES_RESULT then Values(DecodePairs(content))
    else if kind == STDOUT then if content == [] then [] else [StdoutStream(requestId, content)]
    else if kind == STDERR then if content == [] then [] else [StderrStream(requestId, content)]
    else if kind == END_REQUEST && |content| == 8 then
      [EndRequest(requestId, U16At(content, 0) * 0x1_0000 + U16At(content, 2), content[4])]
    else []
  }

  /** What a buffer makes the receiver do, what is kept of it, and whether it was dropped on the way. */
  datatype Processed = Processed(events: seq<Event>, rest: bytes, dropped: bool)

  function Process(buf: bytes): Processed
    decreases |buf|
  {
    match FrameOf(buf)
    case Short => Processed([], buf, false)
    case Bad => Processed([], [], true)
    case Whole(kind, id, content, size) =>
      var p := Process(buf[size..]);
      p.(events := EventsOf(kind, id, content) + p.events)
  }

  /** A record at the start of a buffer is the same record whatever follows it. */
  lemma FramePrefix(a: bytes, b: bytes)
    requires !FrameOf(a).Short?
    ensures FrameOf(a + b) == FrameOf(a)
    ensures FrameOf(a).Whole? ==> (a + b)[FrameOf(a).size..] == a[FrameOf(a).size..] + b
  {
  }

  /** As long as no header is wrong, cutting the stream changes neither the callbacks nor what is kept. */
  lemma {:induction false} ProcessResumes(a: bytes, b: bytes)
    ensures Process(a).dropped ==> Process(a).rest == []
    ensures var p := Process(a);
            !p.dropped ==>
              var q := Process(p.rest + b); Process(a + b) == q.(events := p.events + q.events)
    decreases |a|
  {
    hide FrameOf, EventsOf;
    match FrameOf(a)
    case Short => NoEvents(Process(a + b).events);
    case Bad =>
    case Whole(kind, id, content, size) =>
      FramePrefix(a, b);
      ProcessResumes(a[size..], b);
      var p := Process(a[size..]);
      if !p.dropped {
        Associative(EventsOf(kind, id, content), p.events, Process(p.rest + b).events);
      }
  }

  lemma NoEvents(e: seq<Event>)
    ensures [] + e == e
  {
  }

  /** Feeding the stream in pieces: what is kept is joined with the next piece, and a wrong header leaves nothing. */
  function Feed(rest: bytes, pieces: seq<bytes>): Processed
    decreases |pieces|
  {
    if pieces == [] then Processed([], rest, false)
    else
      var p := Process(rest + pieces[0]);
      var q := Feed(p.rest, pieces[1..]);
      Processed(p.events + q.events, q.rest, p.dropped || q.dropped)
  }

  /** However a stream without wrong headers is cut, the callbacks are those of the whole, in the same order. */
  lemma {:induction false} FeedIsProcess(rest: bytes, pieces: seq<bytes>)
    requires FrameOf(rest).Short? && !Process(rest + Flatten(pieces)).dropped
    ensures Feed(rest, pieces) == Process(rest + Flatten(pieces))
    decreases |pieces|
  {
    hide EventsOf;
    if pieces == [] {
      assert rest + Flatten(pieces) == rest;
    } else {
      var a, b := rest + pieces[0], Flatten(pieces[1..]);
      assert a + b == rest + Flatten(pieces);
      ProcessResumes(a, b);
      if Process(a).dropped {
        DroppedStays(a, b);
      }
      RestIsShort(a);
      hide FrameOf;
      FeedIsProcess(Process(a).rest, pieces[1..]);
    }
  }

  /** Behind a wrong header, all that comes in the same buffer is lost. */
  lemma {:induction false} DroppedStays(a: bytes, b: bytes)
    requires Process(a).dropped
    ensures Process(a + b) == Process(a)
    decreases |a|
  {
    hide EventsOf;
    FramePrefix(a, b);
    if FrameOf(a).Whole? {
      DroppedStays(a[FrameOf(a).size..], b);
    }
  }

  /** A record that ends a request. */
  const LAST_RECORD: bytes := [VERSION, END_REQUEST, 0, 1, 0, 8, 0, 0] + Repeat(0, 8)

  lemma LastRecordEnds()
    ensures |Process(LAST_RECORD).events| == 1
  {
    assert LAST_RECORD[..HEADER_LEN] == [VERSION, END_REQUEST, 0, 1, 0, 8, 0, 0];
    assert FrameOf(LAST_RECORD) == Whole(END_REQUEST, 1, LAST_RECORD[8..16], 16);
    assert LAST_RECORD[16..] == [];
  }

  lemma FedTwice(a: bytes, b: bytes)
    ensures Feed([], [a, b]).events == Process(a).events + Process(Process(a).rest + b).events
  {
    hide Process;
    assert [] + a == a && [a, b][1..] == [b] && [b][1..] == [];
    var q := Process(Process(a).rest + b);
    assert Feed(Process(a).rest, [b]).events == q.events + [];
  }

  /**
   * Whether a stream is cut behind `a` makes no difference to the callbacks, whatever follows, if and only if no
   * header in `a` is wrong.
   */
  lemma CutsMatterIff(a: bytes)
    ensures (forall b :: Feed([], [a, b]).events == Process(a + b).events) <==> !Process(a).dropped
  {
    hide Process, Feed;
    if Process(a).dropped {
      ProcessResumes(a, LAST_RECORD);
      DroppedStays(a, LAST_RECORD);
      FedTwice(a, LAST_RECORD);
      assert [] + LAST_RECORD == LAST_RECORD;
      LastRecordEnds();
      assert Feed([], [a, LAST_RECORD]).events != Process(a + LAST_RECORD).events;
    } else {
      forall b
        ensures Feed([], [a, b]).events == Process(a + b).events
      {
        ProcessResumes(a, b);
        FedTwice(a, b);
      }
    }
  }

  /** For example, a record is dropped if it comes with a wrong header before it, and handled if it comes after it. */
  lemma WrongHeaderCuts(wrong: bytes, record: bytes)
    requires FrameOf(wrong).Bad? && FrameOf(record).Whole? && !Process(record).dropped
    ensures Process(wrong + record) == Processed([], [], true)
    ensures Process(wrong) == Processed([], [], true) && Process(Process(wrong).rest + record).events == Process(record).events
    ensures !Process(Process(wrong).rest + record).dropped
  {
    FramePrefix(wrong, record);
    assert [] + record == record;
  }

  /** What is kept is never a whole record. */
  lemma {:induction false} RestIsShort(a: bytes)
    requires !Process(a).dropped
    ensures FrameOf(Process(a).rest).Short?
    decreases |a|
  {
    hide EventsOf;
    if FrameOf(a).Whole? {
      RestIsShort(a[FrameOf(a).size..]);
    }
  }

  /** A record as it is sent. */
  datatype Rec = Rec(kind: byte, requestId: nat, content: bytes, padding: bytes, reserved: byte)

  predicate Legal(r: Rec) {
    && 1 <= r.kind <= UNKNOWN_TYPE && r.requestId < 0x1_0000 && |r.content| < 0x1_0000 && |r.padding| < 0x100
  }

  function EncodeRec(r: Rec): bytes
    requires Legal(r)
  {
    Header(r.kind, r.requestId, |r.content|, |r.padding|)[7 := r.reserved] + r.content + r.padding
  }

  function EncodeRecs(rs: seq<Rec>): bytes
    requires forall r <- rs :: Legal(r)
  {
    if rs == [] then [] else EncodeRec(rs[0]) + EncodeRecs(rs[1..])
  }

  function EventsOfAll(rs: seq<Rec>): seq<Event> {
    if rs == [] then [] else EventsOf(rs[0].kind, rs[0].requestId, rs[0].content) + EventsOfAll(rs[1..])
  }

  /** Where the fields of a record stand, in the numbers of the FastCGI Specification, section 3.3. */
  lemma WireFormat(r: Rec)
    requires Legal(r)
    ensures var b := EncodeRec(r);
            && |b| == 8 + |r.content| + |r.padding| && b[0] == 1 && b[1] == r.kind && b[7] == r.reserved
            && 256 * b[2] as int + b[3] == r.requestId && 256 * b[4] as int + b[5] == |r.content| && b[6] == |r.padding|
            && b[8..8 + |r.content|] == r.content && b[8 + |r.content|..] == r.padding
  {
  }

  /** Which types of records there are, and what they say: sections 4, 5.3, 5.5 and 8 of that specification. */
  lemma TypesAre(kind: byte, id: nat, content: bytes)
    ensures EventsOf(kind, id, content)
            == if kind == 6 && content != [] then [StdoutStream(id, content)]
               else if kind == 7 && content != [] then [StderrStream(id, content)]
               else if kind == 3 && |content| == 8 then
                 [EndRequest(id, 0x100_0000 * content[0] as int + 0x1_0000 * content[1] as int + 0x100 * content[2] as int
                                 + content[3], content[4])]
               else if kind == 10 then Values(DecodePairs(content))
               else []
    ensures kind != 0 && kind <= 11 <==> FrameOf([1, kind, 0, 0, 0, 0, 0, 0]).Whole?
    ensures FrameOf([kind, 6, 0, 0, 0, 0, 0, 0]).Whole? <==> kind == 1
  {
  }

  lemma RecFrame(r: Rec, rest: bytes)
    requires Legal(r)
    ensures var buf := EncodeRec(r) + rest;
            FrameOf(buf) == Whole(r.kind, r.requestId, r.content, |EncodeRec(r)|) && buf[|EncodeRec(r)|..] == rest
  {
    var h := Header(r.kind, r.requestId, |r.content|, |r.padding|)[7 := r.reserved];
    var buf := EncodeRec(r) + rest;
    assert buf[..HEADER_LEN] == h;
    assert forall i :: 0 <= i < HEADER_LEN ==> buf[i] == h[i];
    assert buf[HEADER_LEN..HEADER_LEN + |r.content|] == r.content;
  }

  /** A stream of records, and part of another, makes the callbacks of the records and keeps the part. */
  lemma {:induction false} ProcessRecs(rs: seq<Rec>, part: bytes)
    requires (forall r <- rs :: Legal(r)) && FrameOf(part).Short?
    ensures Process(EncodeRecs(rs) + part) == Processed(EventsOfAll(rs), part, false)
    decreases |rs|
  {
    hide EncodeRec, FrameOf, EventsOf, Legal;
    if rs == [] {
      assert EncodeRecs(rs) + part == part;
    } else {
      var later := EncodeRecs(rs[1..]) + part;
      RecFrame(rs[0], later);
      Associative(EncodeRec(rs[0]), EncodeRecs(rs[1..]), part);
      ProcessRecs(rs[1..], part);
    }
  }

  /** The application's output: the contents of its STDOUT records. */
  function Contents(rs: seq<Rec>): bytes {
    if rs == [] then [] else (if rs[0].kind == STDOUT then rs[0].content else []) + Contents(rs[1..])
  }

  /** However a stream of records is cut, it makes the callbacks of the records, and nothing is left. */
  lemma FeedRecs(rs: seq<Rec>, pieces: seq<bytes>)
    requires (forall r <- rs :: Legal(r)) && Flatten(pieces) == EncodeRecs(rs)
    ensures Feed([], pieces) == Process(EncodeRecs(rs)) == Processed(EventsOfAll(rs), [], false)
  {
    hide EncodeRecs, EventsOfAll, FrameOf, Feed, Process;
    NoFrame();
    ProcessRecs(rs, []);
    assert EncodeRecs(rs) + [] == EncodeRecs(rs) && [] + Flatten(pieces) == Flatten(pieces);
    FeedIsProcess([], pieces);
  }

  /** A record of pairs that the writer built is read as those pairs, in order. */
  lemma ProcessPairs(requestId: nat, pairs: seq<NameValue>)
    requires requestId < 0x1_0000 && (forall p <- pairs :: Small(p)) && |EncodePairs(pairs)| < 0x1_0000
    ensures Process(Record(GET_VALUES_RESULT, requestId, pairs)) == Processed(Values(pairs), [], false)
  {
    hide EncodeRec, Record, EncodePairs, DecodePairs, FrameOf;
    var content := EncodePairs(pairs);
    var r := RecordIsRec(requestId, pairs);
    RecFrame(r, []);
    assert EncodeRec(r) + [] == EncodeRec(r);
    PairsRoundTrip(pairs, []);
    NoPairs();
    assert content + [] == content && pairs + [] == pairs;
    assert FrameOf([]).Short? by {
      NoFrame();
    }
    assert Values(pairs) + [] == Values(pairs);
  }

  lemma NoPairs()
    ensures DecodePairs([]) == []
  {
  }

  lemma NoFrame()
    ensures FrameOf([]).Short?
  {
  }

  /** The record that the writer builds is one with eight-byte padding. */
  lemma RecordIsRec(requestId: nat, pairs: seq<NameValue>) returns (r: Rec)
    requires requestId < 0x1_0000 && (forall p <- pairs :: Small(p)) && |EncodePairs(pairs)| < 0x1_0000
    ensures Legal(r) && r.kind == GET_VALUES_RESULT && r.requestId == requestId && r.content == EncodePairs(pairs)
    ensures EncodeRec(r) == Record(GET_VALUES_RESULT, requestId, pairs)
  {
    hide EncodePairs;
    var content := EncodePairs(pairs);
    var padding := Padding(|content|);
    r := Rec(GET_VALUES_RESULT, requestId, content, Repeat(0, padding), 0);
    var h := Header(GET_VALUES_RESULT, requestId, |content|, padding);
    assert h[7 := 0] == h;
  }
}

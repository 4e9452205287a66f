/** Putting a FastCGI response together: its header block in memory, its body in a temporary file. */
module FcgiConnection {
  import opened Bytes
  import opened Buffers
  import opened FastCgi
  import opened FcgiRecords
  import NameValuePairs
  import HeaderParsing
  import HeaderTable
  import HttpHeaders
  import HttpNames
  import HeaderRoundTrip
  import Responses
  import opened Sequences

  datatype State = ReadingHeaders | ReadingBody | ResponseCompleted

  /** The temporary file: all it holds, and the place where it is written next. */
  datatype File = NoFile | Open(contents: bytes, at: nat)

  /**
   * What the callbacks change; the headers are those of the parser once it has come to their end. `spare` is what
   * the file that will be opened holds already: nothing if it is new, but a file that is used again is only rewound.
   */
  datatype Response = Response(
    state: State, out: bytes, scan: HeaderParsing.Scan, headers: HeaderTable.Table, file: File, filesize: nat,
    spare: bytes)

  function Start(spare: bytes): Response {
    Response(ReadingHeaders, [], HeaderParsing.INITIAL, [], NoFile, 0, spare)
  }

  datatype Outcome = Failed | Made(response: Response)

  predicate Scannable(d: HttpNames.Dictionary, r: Response) {
    && (r.state.ReadingHeaders? ==> HeaderParsing.Within(d, r.scan))
    && (r.file.Open? ==> r.file.at <= |r.file.contents|)
  }

  /** What a file holds after data has been written at a place in it. */
  function WriteAt(contents: bytes, at: nat, data: bytes): (r: bytes)
    requires at <= |contents|
    ensures at + |data| <= |r|
  {
    contents[..at] + data + if at + |data| < |contents| then contents[at + |data|..] else []
  }

  /** Writing in two pieces is writing once. */
  lemma WriteOn(before: bytes, a: bytes, b: bytes)
    ensures WriteAt(WriteAt(before, 0, a), |a|, b) == WriteAt(before, 0, a + b)
  {
    var x, y := WriteAt(WriteAt(before, 0, a), |a|, b), WriteAt(before, 0, a + b);
    assert |x| == |y|;
    assert forall i :: 0 <= i < |x| ==> x[i] == y[i];
  }

  /** A file that has been rewound begins with what is written, and holds nothing else if it was not longer before. */
  lemma Rewritten(before: bytes, body: bytes)
    ensures var contents := WriteAt(before, 0, body);
            contents[..|body|] == body && (contents == body <==> |before| <= |body|)
  {
  }

  /** The body offset never lies behind the input. */
  lemma {:induction false} EndsInside(d: HttpNames.Dictionary, buf: bytes, s: HeaderParsing.Scan)
    requires HeaderParsing.Within(d, s)
    ensures var r := HeaderParsing.Run(d, false, buf, s); r.End? ==> r.bodyOffset <= |buf|
    decreases |buf| - s.offset
  {
    if s.offset < |buf| {
      HeaderParsing.StepWithin(d, false, buf, s);
      StopsInside(d, buf, s);
      hide HeaderParsing.Step, HeaderParsing.Within;
      match HeaderParsing.Step(d, false, buf, s)
      case Go(t) => EndsInside(d, buf, t);
      case Stop(_) =>
    }
  }

  lemma StopsInside(d: HttpNames.Dictionary, buf: bytes, s: HeaderParsing.Scan)
    requires HeaderParsing.Within(d, s) && s.offset < |buf|
    ensures var r := HeaderParsing.Step(d, false, buf, s);
            r.Stop? && r.result.End? ==> r.result.bodyOffset == s.offset + 1
  {
  }

  /** More of the application's output. */
  function Stdout(d: HttpNames.Dictionary, r: Response, content: bytes): (o: Outcome)
    requires Scannable(d, r)
    ensures o.Made? ==> Scannable(d, o.response)
  {
    if r.state.ReadingHeaders? then
      var out := r.out + content;
      HeaderParsing.Resumes(d, false, out, |out|, r.scan);
      assert out[..|out|] == out;
      match HeaderParsing.Run(d, false, out, r.scan)
      case NotEnd(scan) => Made(r.(out := out, scan := scan))
      case End(store, bodyOffset) =>
        EndsInside(d, out, r.scan);
        var body := out[bodyOffset..];
        Made(Response(ReadingBody, out, HeaderParsing.INITIAL, store.table, Open(WriteAt(r.spare, 0, body), |body|),
                      |body|, r.spare))
      case _ => Failed
    else if r.file.NoFile? then Failed
    else
      var f := r.file;
      Made(r.(file := Open(WriteAt(f.contents, f.at, content), f.at + |content|), filesize := r.filesize + |content|))
  }

  function Deliver(d: HttpNames.Dictionary, r: Response, event: Event): (o: Outcome)
    requires Scannable(d, r)
    ensures o.Made? ==> Scannable(d, o.response)
  {
    match event
    case StdoutStream(_, content) => Stdout(d, r, content)
    case EndRequest(_, _, _) => Made(r.(state := ResponseCompleted, scan := HeaderParsing.INITIAL))
    case _ => Made(r)
  }

  function DeliverAll(d: HttpNames.Dictionary, r: Response, events: seq<Event>): (o: Outcome)
    requires Scannable(d, r)
    ensures o.Made? ==> Scannable(d, o.response)
    decreases |events|
  {
    if events == [] then Made(r)
    else
      match Deliver(d, r, events[0])
      case Failed => Failed
      case Made(s) => DeliverAll(d, s, events[1..])
  }

  /** Everything the application has sent on its output stream. */
  function Output(events: seq<Event>): bytes {
    if events == [] then []
    else (if events[0].StdoutStream? then events[0].content else []) + Output(events[1..])
  }

  /** What a response says about the output `sent` that made it. */
  ghost predicate Reassembles(d: HttpNames.Dictionary, r: Response, sent: bytes) {
    && HeaderParsing.Within(d, HeaderParsing.INITIAL)
    && var whole := HeaderParsing.Run(d, false, sent, HeaderParsing.INITIAL);
    match r.file
    case NoFile => whole.NotEnd? && (r.state.ReadingHeaders? ==> r.out == sent && whole == HeaderParsing.NotEnd(r.scan))
    case Open(contents, at) =>
      && !r.state.ReadingHeaders? && whole.End? && whole.bodyOffset <= |sent|
      && var body := sent[whole.bodyOffset..];
         contents == WriteAt(r.spare, 0, body) && at == r.filesize == |body| && r.headers == whole.store.table
  }

  /** One more piece of output keeps the response in step with all the output so far. */
  lemma StdoutReassembles(d: HttpNames.Dictionary, r: Response, sent: bytes, content: bytes)
    requires Scannable(d, r) && Reassembles(d, r, sent)
    ensures Stdout(d, r, content).Made? ==> Reassembles(d, Stdout(d, r, content).response, sent + content)
  {
    hide HeaderParsing.Run, HeaderParsing.Within;
    var all := sent + content;
    assert all[..|sent|] == sent;
    HeaderParsing.Resumes(d, false, all, |sent|, HeaderParsing.INITIAL);
    if r.state.ReadingHeaders? {
      EndsInside(d, all, r.scan);
    } else if r.file.Open? {
      var offset := HeaderParsing.Run(d, false, sent, HeaderParsing.INITIAL).bodyOffset;
      assert all[offset..] == sent[offset..] + content;
      WriteOn(r.spare, sent[offset..], content);
    }
  }

  lemma {:induction false} DeliverReassembles(d: HttpNames.Dictionary, r: Response, sent: bytes, events: seq<Event>)
    requires Scannable(d, r) && Reassembles(d, r, sent)
    ensures var o := DeliverAll(d, r, events); o.Made? ==> Reassembles(d, o.response, sent + Output(events))
    decreases |events|
  {
    hide Stdout;
    if events == [] {
      assert sent + [] == sent;
    } else {
      var o := Deliver(d, r, events[0]);
      var content := if events[0].StdoutStream? then events[0].content else [];
      hide Reassembles, Deliver;
      if o.Made? {
        assert Reassembles(d, o.response, sent + content) by {
          DeliverOne(d, r, sent, events[0]);
        }
        DeliverReassembles(d, o.response, sent + content, events[1..]);
        assert sent + content + Output(events[1..]) == sent + (content + Output(events[1..]));
      }
    }
  }

  lemma DeliverOne(d: HttpNames.Dictionary, r: Response, sent: bytes, event: Event)
    requires Scannable(d, r) && Reassembles(d, r, sent)
    ensures var content := if event.StdoutStream? then event.content else [];
            var o := Deliver(d, r, event);
            o.Made? ==> Reassembles(d, o.response, sent + content)
  {
    if event.StdoutStream? {
      hide Stdout, Reassembles;
      StdoutReassembles(d, r, sent, event.content);
    } else {
      assert sent + [] == sent;
    }
  }

  lemma StartReassembles(d: HttpNames.Dictionary, spare: bytes)
    ensures Scannable(d, Start(spare)) && Reassembles(d, Start(spare), [])
  {
  }

  lemma {:induction false} SpareStays(d: HttpNames.Dictionary, r: Response, events: seq<Event>)
    requires Scannable(d, r)
    ensures var o := DeliverAll(d, r, events); o.Made? ==> o.response.spare == r.spare
    decreases |events|
  {
    if events != [] && Deliver(d, r, events[0]).Made? {
      var s := Deliver(d, r, events[0]).response;
      assert s.spare == r.spare;
      hide Deliver, Scannable;
      SpareStays(d, s, events[1..]);
    }
  }

  /** The body of an answer: everything behind the header block in its output. */
  function BodyOf(d: HttpNames.Dictionary, sent: bytes): bytes
    requires HeaderParsing.Run(d, false, sent, HeaderParsing.INITIAL).End?
  {
    EndsInside(d, sent, HeaderParsing.INITIAL);
    sent[HeaderParsing.Run(d, false, sent, HeaderParsing.INITIAL).bodyOffset..]
  }

  /**
   * There is a file if and only if the output has come to the end of its headers. It begins with the body, and the
   * size recorded is the length of that; it holds nothing else if and only if it did not hold more before.
   */
  ghost predicate HoldsBody(d: HttpNames.Dictionary, r: Response, sent: bytes) {
    && (r.file.Open? <==> HeaderParsing.Run(d, false, sent, HeaderParsing.INITIAL).End?)
    && (r.file.Open? ==>
          && var body := BodyOf(d, sent);
          && r.filesize == |body| && r.filesize <= |r.file.contents| && r.file.contents[..r.filesize] == body
          && (r.file.contents == body <==> |r.spare| <= |body|))
  }

  /** If every callback for a stream succeeds, the temporary file holds the body of the output. */
  lemma FileIsBody(d: HttpNames.Dictionary, spare: bytes, events: seq<Event>)
    requires DeliverAll(d, Start(spare), events).Made?
    ensures var r := DeliverAll(d, Start(spare), events).response;
            r.spare == spare && Reassembles(d, r, Output(events)) && HoldsBody(d, r, Output(events))
  {
    hide DeliverAll, Scannable, WriteAt, HeaderParsing.Run;
    StartReassembles(d, spare);
    DeliverReassembles(d, Start(spare), [], events);
    SpareStays(d, Start(spare), events);
    assert [] + Output(events) == Output(events);
    var r := DeliverAll(d, Start(spare), events).response;
    if r.file.Open? {
      Rewritten(spare, BodyOf(d, Output(events)));
    }
  }

  lemma {:induction false} OutputJoins(a: seq<Event>, b: seq<Event>)
    ensures Output(a + b) == Output(a) + Output(b)
  {
    if a == [] {
      assert a + b == b;
    } else {
      assert (a + b)[1..] == a[1..] + b;
      OutputJoins(a[1..], b);
      Associative(if a[0].StdoutStream? then a[0].content else [], Output(a[1..]), Output(b));
    }
  }

  lemma {:induction false} NoOutput(events: seq<Event>)
    requires forall i :: 0 <= i < |events| ==> !events[i].StdoutStream?
    ensures Output(events) == []
  {
    if events != [] {
      NoOutput(events[1..]);
    }
  }

  lemma RecordOutput(kind: byte, requestId: nat, content: bytes)
    ensures Output(EventsOf(kind, requestId, content)) == if kind == STDOUT then content else []
  {
    if kind == STDOUT && content != [] {
      assert [StdoutStream(requestId, content)][1..] == [] && content + [] == content;
    } else {
      NoOutput(EventsOf(kind, requestId, content));
    }
  }

  /** The output that reaches the receiver is what the output records contain. */
  lemma {:induction false} OutputIsContents(rs: seq<Rec>)
    ensures Output(EventsOfAll(rs)) == Contents(rs)
  {
    hide EventsOf;
    if rs != [] {
      hide Output;
      OutputIsContents(rs[1..]);
      RecordOutput(rs[0].kind, rs[0].requestId, rs[0].content);
      OutputJoins(EventsOf(rs[0].kind, rs[0].requestId, rs[0].content), EventsOfAll(rs[1..]));
    }
  }

  /**
   * Whatever records an application sends, and however they are cut on the way: if every callback succeeds, the
   * temporary file holds the body of the output records' contents.
   */
  lemma RecordsReassemble(d: HttpNames.Dictionary, spare: bytes, rs: seq<Rec>, pieces: seq<bytes>)
    requires (forall r <- rs :: Legal(r)) && Flatten(pieces) == EncodeRecs(rs)
    ensures var p := Feed([], pieces);
            !p.dropped && p.rest == []
            && var o := DeliverAll(d, Start(spare), p.events);
               o.Made? ==> HoldsBody(d, o.response, Contents(rs))
  {
    hide Feed, Process, EventsOfAll, EncodeRecs, Contents, Output, DeliverAll, HoldsBody, Scannable, Reassembles;
    StartReassembles(d, spare);
    FeedRecs(rs, pieces);
    OutputIsContents(rs);
    if DeliverAll(d, Start(spare), Feed([], pieces).events).Made? {
      FileIsBody(d, spare, Feed([], pieces).events);
    }
  }

  /** A whole answer: only its last record ends the request. */
  ghost predicate IsAnswer(rs: seq<Rec>) {
    && rs != [] && (forall r <- rs :: Legal(r))
    && var n := |rs| - 1;
       && rs[n].kind == END_REQUEST && |rs[n].content| == 8
       && forall i :: 0 <= i < n ==> rs[i].kind != END_REQUEST
  }

  lemma EndsNothing(r: Rec)
    requires r.kind != END_REQUEST
    ensures forall e <- EventsOf(r.kind, r.requestId, r.content) :: !e.EndRequest?
  {
  }

  lemma EndsRequest(r: Rec)
    requires r.kind == END_REQUEST && |r.content| == 8
    ensures var e := EventsOf(r.kind, r.requestId, r.content); |e| == 1 && e[0].EndRequest?
  {
  }

  lemma {:induction false} OnlyLastEnds(rs: seq<Rec>)
    requires IsAnswer(rs)
    ensures var e := EventsOfAll(rs);
            e != [] && e[|e| - 1].EndRequest? && forall i :: 0 <= i < |e| - 1 ==> !e[i].EndRequest?
    decreases |rs|
  {
    hide EventsOf;
    var first, rest := EventsOf(rs[0].kind, rs[0].requestId, rs[0].content), EventsOfAll(rs[1..]);
    if |rs| == 1 {
      EndsRequest(rs[0]);
      assert rs[1..] == [] && rest == [] && first + rest == first;
    } else {
      assert IsAnswer(rs[1..]);
      OnlyLastEnds(rs[1..]);
      EndsNothing(rs[0]);
      assert EventsOfAll(rs) == first + rest;
      hide EventsOfAll;
    }
  }

  /** Only the end of the request completes a response. */
  lemma {:induction false} CompletedByEnd(d: HttpNames.Dictionary, r: Response, events: seq<Event>) returns (i: nat)
    requires Scannable(d, r) && !r.state.ResponseCompleted?
    requires DeliverAll(d, r, events).Made? && DeliverAll(d, r, events).response.state.ResponseCompleted?
    ensures i < |events| && events[i].EndRequest?
    decreases |events|
  {
    if events[0].EndRequest? {
      i := 0;
    } else {
      i := CompletedByEnd(d, Deliver(d, r, events[0]).response, events[1..]);
      i := i + 1;
    }
  }

  lemma EndCompletes(d: HttpNames.Dictionary, r: Response, events: seq<Event>)
    requires Scannable(d, r) && events != [] && events[|events| - 1].EndRequest?
    ensures DeliverAll(d, r, events).Made? ==> DeliverAll(d, r, events).response.state.ResponseCompleted?
  {
    var n := |events| - 1;
    assert events == events[..n] + [events[n]];
    DeliverJoins(d, r, events[..n], [events[n]]);
    if DeliverAll(d, r, events[..n]).Made? {
      DeliverFirst(d, DeliverAll(d, r, events[..n]).response, events[n]);
    }
  }

  /** Reading an answer stops when all of its callbacks have been made. */
  lemma AnswerRead(d: HttpNames.Dictionary, before: Response, rs: seq<Rec>, sent: bytes, tail: bytes)
    requires Scannable(d, before) && !before.state.ResponseCompleted? && IsAnswer(rs) && sent + tail == EncodeRecs(rs)
    ensures var p := Process(sent);
            var o := DeliverAll(d, before, p.events);
            && !p.dropped
            && (o.Made? && (tail == [] || o.response.state.ResponseCompleted?) ==>
                  o.response.state.ResponseCompleted? && p.events == EventsOfAll(rs))
  {
    hide Process, EncodeRecs, EventsOfAll, DeliverAll, Scannable, FrameOf;
    NoFrame();
    ProcessRecs(rs, []);
    assert EncodeRecs(rs) + [] == EncodeRecs(rs);
    ProcessResumes(sent, tail);
    if Process(sent).dropped {
      DroppedStays(sent, tail);
    }
    var p, q := Process(sent), Process(Process(sent).rest + tail);
    OnlyLastEnds(rs);
    var o := DeliverAll(d, before, p.events);
    if tail == [] {
      assert sent + tail == sent;
      EndCompletes(d, before, p.events);
    } else if o.Made? && o.response.state.ResponseCompleted? {
      var i := CompletedByEnd(d, before, p.events);
      assert (p.events + q.events)[i] == p.events[i];
      assert q.events == [];
      assert p.events + [] == p.events;
    }
  }

  /**
   * What makes the response right is that only as many bytes are sent as have been recorded: whatever the file held
   * before, the client gets the header block and the body.
   */
  lemma BodyIsSent(d: HttpNames.Dictionary, spare: bytes, events: seq<Event>, r: Responses.Response, header: bytes)
    requires DeliverAll(d, Start(spare), events).Made? && DeliverAll(d, Start(spare), events).response.file.Open?
    requires var made := DeliverAll(d, Start(spare), events).response;
             r.file == made.file.contents && r.filesize == made.filesize
    requires !r.head && !r.payloadInMemory && r.ranges == []
    ensures HeaderParsing.Run(d, false, Output(events), HeaderParsing.INITIAL).End?
    ensures var p := Responses.Point(Responses.SendingBackendHeaders, header, 0, 0);
            Responses.Valid(r, p) && Responses.Rest(r, p) == header + BodyOf(d, Output(events))
  {
    hide DeliverAll, Scannable, HeaderParsing.Run, Responses.Valid, Responses.Rest, Reassembles, BodyOf;
    FileIsBody(d, spare, events);
    Responses.BackendResponse(r, header);
  }

  lemma EmptyHeaders(d: HttpNames.Dictionary, body: bytes)
    requires HttpNames.WellFormed(d)
    ensures var r := HeaderParsing.Run(d, false, [CR, LF] + body, HeaderParsing.INITIAL); r.End? && r.bodyOffset == 2
  {
    hide HeaderParsing.Run, HeaderParsing.Within;
    var buf := [CR, LF] + body;
    HeaderRoundTrip.ParseSerialized(d, false, [], []);
    assert HeaderRoundTrip.Serialized([], []) == [CR, LF] == buf[..2];
    HeaderParsing.Resumes(d, false, buf, 2, HeaderParsing.INITIAL);
  }

  /** For example, when an answer with the body `ab` is followed by one with the body `c` in the same file. */
  lemma FileUsedAgain(d: HttpNames.Dictionary, requestId: nat)
    requires HttpNames.WellFormed(d)
    ensures var first := DeliverAll(d, Start([]), [StdoutStream(requestId, [CR, LF, 0x61, 0x62])]);
            && first.Made? && first.response.file.Open? && first.response.file.contents == [0x61, 0x62]
            && var second := DeliverAll(d, Start(first.response.file.contents), [StdoutStream(requestId, [CR, LF, 0x63])]);
               && second.Made? && second.response.file.Open? && second.response.file.contents == [0x63, 0x62]
               && second.response.filesize == 1
  {
    hide HeaderParsing.Run, DeliverAll, HeaderParsing.Within;
    OneAnswer(d, [], requestId, [0x61, 0x62]);
    OneAnswer(d, [0x61, 0x62], requestId, [0x63]);
    assert [CR, LF] + [0x61, 0x62] == [CR, LF, 0x61, 0x62] && [CR, LF] + [0x63] == [CR, LF, 0x63];
    assert [] + [0x61, 0x62] + [] == [0x61, 0x62];
    assert [] + [0x63] + [0x61, 0x62][1..] == [0x63, 0x62];
  }

  lemma OneAnswer(d: HttpNames.Dictionary, spare: bytes, requestId: nat, body: bytes)
    requires HttpNames.WellFormed(d)
    ensures var o := DeliverAll(d, Start(spare), [StdoutStream(requestId, [CR, LF] + body)]);
            o.Made? && o.response.file.Open? && o.response.file.contents == WriteAt(spare, 0, body) && o.response.filesize == |body|
  {
    hide HeaderParsing.Run, HeaderParsing.Within, DeliverAll, WriteAt;
    var out := [] + ([CR, LF] + body);
    EmptyHeaders(d, body);
    assert out == [CR, LF] + body && out[2..] == body;
    StartReassembles(d, spare);
    DeliverFirst(d, Start(spare), StdoutStream(requestId, [CR, LF] + body));
  }

  /**
   * An application that ends its request before the end of its headers leaves no temporary file; whatever output
   * comes after that fails.
   */
  lemma EndedBeforeHeaders(
    d: HttpNames.Dictionary, spare: bytes, events: seq<Event>, requestId: nat, more: bytes)
    requires DeliverAll(d, Start(spare), events).Made?
    requires var r := DeliverAll(d, Start(spare), events).response; r.state.ResponseCompleted?
    requires HeaderParsing.Run(d, false, Output(events), HeaderParsing.INITIAL).NotEnd?
    ensures var r := DeliverAll(d, Start(spare), events).response;
            r.file.NoFile? && Deliver(d, r, StdoutStream(requestId, more)).Failed?
  {
    FileIsBody(d, spare, events);
  }

  /** For example, one that ends it at once. */
  lemma EndedAtOnce(d: HttpNames.Dictionary, spare: bytes, requestId: nat, appStatus: nat, status: byte)
    ensures var o := DeliverAll(d, Start(spare), [EndRequest(requestId, appStatus, status)]);
            && o.Made? && o.response.state.ResponseCompleted? && o.response.file.NoFile?
            && HeaderParsing.Run(d, false, Output([EndRequest(requestId, appStatus, status)]), HeaderParsing.INITIAL).NotEnd?
  {
    var event := EndRequest(requestId, appStatus, status);
    assert [event][1..] == [];
    assert Deliver(d, Start(spare), event) == Made(Start(spare).(state := ResponseCompleted));
    assert Output([event]) == [] + Output([]);
  }

  class Connection {
    const headers: HttpHeaders.Headers
    const spare: bytes

    var state: State
    var out: bytes
    var file: File
    var filesize: nat

    ghost predicate Valid()
      reads this, headers
    {
      && headers.Valid() && headers.Slices() && headers.ignoreErrors && Scannable(headers.dict, Now())
      && (file.Open? ==> !state.ReadingHeaders?)
    }

    /** The parser's positions count while the headers are read, its table once they are complete. */
    ghost function Now(): Response
      requires headers.Slices()
      reads this, headers
    {
      Response(state, out, if state.ReadingHeaders? then headers.Scanned() else HeaderParsing.INITIAL,
               if file.Open? then headers.View() else [], file, filesize, spare)
    }

    constructor (headers: HttpHeaders.Headers, spare: bytes)
      requires headers.Valid() && headers.ignoreErrors && headers.Scanned() == HeaderParsing.INITIAL
      ensures Valid() && Now() == Start(spare) && this.headers == headers && this.spare == spare
    {
      this.headers, this.spare := headers, spare;
      state, out, file, filesize := ReadingHeaders, [], NoFile, 0;
    }

    method StdoutStream(content: bytes) returns (ok: bool)
      requires Valid()
      modifies this, headers
      ensures var o := Stdout(headers.dict, old(Now()), content);
              ok == o.Made? && (ok ==> Valid() && Now() == o.response)
    {
      if state.ReadingHeaders? {
        out := out + content;
        var code, bodyOffset := headers.Parse(out);
        match code {
          case END_OF_HEADER =>
            EndsInside(headers.dict, out, old(headers.Scanned()));
            file := Open(WriteAt(spare, 0, out[bodyOffset..]), |out| - bodyOffset);
            filesize := |out| - bodyOffset;
            state := ReadingBody;
            ok := true;
          case NOT_END_OF_HEADER => ok := true;
          case _ => ok := false;
        }
      } else if file.NoFile? {
        ok := false;
      } else {
        file := Open(WriteAt(file.contents, file.at, content), file.at + |content|);
        filesize := filesize + |content|;
        ok := true;
      }
    }

    /** Makes the callbacks of one record. */
    method Record(kind: byte, requestId: nat, content: bytes) returns (ok: bool)
      requires Valid()
      modifies this, headers
      ensures var o := DeliverAll(headers.dict, old(Now()), EventsOf(kind, requestId, content));
              ok == o.Made? && (ok ==> Valid() && Now() == o.response)
    {
      hide Stdout, HttpHeaders.Headers.Valid, Scannable;
      ghost var d, before := headers.dict, Now();
      ok := true;
      if kind == GET_VALUES_RESULT {
        var pairs := NameValuePairs.Decode(content);
        DeliverValues(d, before, pairs);
      } else if kind == STDOUT {
        if |content| > 0 {
          ok := StdoutStream(content);
          DeliverFirst(d, before, FastCgi.StdoutStream(requestId, content));
        }
      } else if kind == STDERR {
        if |content| > 0 {
          DeliverFirst(d, before, StderrStream(requestId, content));
        }
      } else if kind == END_REQUEST {
        if |content| == 8 {
          state := ResponseCompleted;
          DeliverFirst(d, before, EventsOf(kind, requestId, content)[0]);
        }
      }
    }

    /** The header at the front of what is left, and the content behind it if it is all there. */
    static method ReadFrame(data: array<byte>, offset: nat, count: nat) returns (frame: Frame)
      requires offset + count <= data.Length
      ensures frame == FrameOf(data[offset..offset + count])
    {
      ghost var buf := data[offset..offset + count];
      assert forall i :: 0 <= i < count ==> buf[i] == data[offset + i];
      if count < HEADER_LEN {
        return Short;
      }
      if data[offset] != VERSION || data[offset + 1] == 0 || data[offset + 1] > UNKNOWN_TYPE {
        return Bad;
      }
      var contentLength := data[offset + 4] as int * 256 + data[offset + 5];
      var size := HEADER_LEN + contentLength + data[offset + 6];
      if count < size {
        return Short;
      }
      var requestId := data[offset + 2] as int * 256 + data[offset + 3];
      var content := data[offset + HEADER_LEN..offset + HEADER_LEN + contentLength];
      InnerSlice(data[..], offset, offset + count, HEADER_LEN, HEADER_LEN + contentLength);
      frame := Whole(data[offset + 1], requestId, content, size);
    }

    /** Handles every whole record in the buffer, and moves what is left to its front. */
    method Process(buf: Buffer) returns (ok: bool)
      requires Valid() && buf.Valid()
      modifies this, headers, buf`used, buf.data
      ensures var p := FcgiRecords.Process(old(buf.Contents()));
              var o := DeliverAll(headers.dict, old(Now()), p.events);
              ok == o.Made? && (ok ==> Valid() && Now() == o.response && buf.Valid() && buf.Contents() == p.rest)
    {
      hide FrameOf, EventsOf, Deliver, DeliverAll, HttpHeaders.Headers.Valid, Scannable, Handled, FcgiRecords.Process;
      ghost var d, before, whole := headers.dict, Now(), buf.Contents();
      ghost var done := [];
      var offset := 0;
      HandledNone(d, before, whole);
      while true
        invariant offset <= buf.used == |whole| && buf.Valid() && buf.data == old(buf.data) && buf.Contents() == whole
        invariant Valid() && Handled(d, before, whole, offset, done, Now())
        decreases buf.used - offset
      {
        var count := buf.used - offset;
        assert whole[offset..] == buf.data[offset..offset + count];
        var frame := ReadFrame(buf.data, offset, count);
        match frame {
          case Short =>
            HandledAll(d, before, whole, offset, done, Now());
            if count > 0 && offset > 0 {
              MoveToFront(buf.data, offset, count);
            }
            buf.used := count;
            return true;
          case Bad =>
            HandledAll(d, before, whole, offset, done, Now());
            buf.used := 0;
            return true;
          case Whole(kind, requestId, content, size) =>
            ghost var r := Now();
            ok := Record(kind, requestId, content);
            HandledOne(d, before, whole, offset, done, r);
            if !ok {
              return;
            }
            done := done + EventsOf(kind, requestId, content);
            offset := offset + size;
        }
      }
    }

    /**
     * Reads the application's answer in whatever pieces it comes, until it is complete. As long as no record
     * header is wrong, the outcome is that of the records of the whole, and only part of a record is kept.
     */
    method ReadResponse(buf: Buffer, pieces: seq<bytes>) returns (ok: bool, n: nat)
      requires Valid() && buf.Valid() && buf.Contents() == []
      modifies this, headers, buf, buf.data
      ensures n <= |pieces|
      ensures var p := FcgiRecords.Process(Flatten(pieces[..n]));
              var o := DeliverAll(headers.dict, old(Now()), p.events);
              !p.dropped ==>
                ok == o.Made? && (ok ==> Valid() && Now() == o.response && buf.Valid() && buf.Contents() == p.rest)
      ensures ok ==> n == |pieces| || state.ResponseCompleted?
    {
      hide FcgiRecords.Process, DeliverAll, HttpHeaders.Headers.Valid, Scannable, ReadSoFar;
      ghost var d, before := headers.dict, Now();
      ok, n := true, 0;
      assert pieces[..0] == [] && Flatten(pieces[..0]) == [];
      NothingRead(d, before);
      while n < |pieces| && !state.ResponseCompleted?
        invariant n <= |pieces| && buf.Valid() && (buf.data == old(buf.data) || fresh(buf.data)) && Valid()
        invariant ReadSoFar(d, before, Flatten(pieces[..n]), Now(), buf.Contents())
      {
        FlattenUpTo(pieces, n);
        ReadMore(d, before, Flatten(pieces[..n]), Now(), buf.Contents(), pieces[n]);
        buf.Append(pieces[n]);
        ok := Process(buf);
        n := n + 1;
        if !ok {
          return;
        }
      }
      HasRead(d, before, Flatten(pieces[..n]), Now(), buf.Contents());
    }

    /** Reads a whole answer, in whatever pieces it comes: the file is then in order. */
    method ReadAnswer(buf: Buffer, pieces: seq<bytes>, ghost rs: seq<Rec>) returns (ok: bool)
      requires Valid() && buf.Valid() && buf.Contents() == [] && Now() == Start(spare)
      requires IsAnswer(rs) && Flatten(pieces) == EncodeRecs(rs)
      modifies this, headers, buf, buf.data
      ensures ok ==> Valid() && state.ResponseCompleted? && HoldsBody(headers.dict, Now(), Contents(rs))
    {
      hide FcgiRecords.Process, DeliverAll, HttpHeaders.Headers.Valid, Scannable, HoldsBody, Reassembles, IsAnswer;
      hide Flatten, EncodeRecs, Contents, Output, EventsOfAll;
      ghost var d, before := headers.dict, Now();
      var n;
      ok, n := ReadResponse(buf, pieces);
      FlattenJoins(pieces[..n], pieces[n..]);
      assert pieces[..n] + pieces[n..] == pieces;
      AnswerRead(d, before, rs, Flatten(pieces[..n]), Flatten(pieces[n..]));
      if n == |pieces| {
        NoPieces(pieces);
      }
      if ok {
        OutputIsContents(rs);
        FileIsBody(d, spare, FcgiRecords.Process(Flatten(pieces[..n])).events);
      }
    }
  }

  lemma NoPieces(pieces: seq<bytes>)
    ensures Flatten(pieces[|pieces|..]) == []
  {
  }

  /** What has been read, if no header in it was wrong, has made its callbacks and left part of a record. */
  ghost predicate ReadSoFar(d: HttpNames.Dictionary, before: Response, sent: bytes, now: Response, kept: bytes)
    requires Scannable(d, before)
  {
    var p := Process(sent);
    !p.dropped ==> DeliverAll(d, before, p.events) == Made(now) && kept == p.rest
  }

  lemma NothingRead(d: HttpNames.Dictionary, r: Response)
    requires Scannable(d, r)
    ensures ReadSoFar(d, r, [], r, [])
  {
  }

  lemma HasRead(d: HttpNames.Dictionary, before: Response, sent: bytes, now: Response, kept: bytes)
    requires Scannable(d, before) && ReadSoFar(d, before, sent, now, kept)
    ensures var p := Process(sent); !p.dropped ==> DeliverAll(d, before, p.events) == Made(now) && kept == p.rest
  {
  }

  /** One more piece: its records' callbacks follow those made before. */
  lemma ReadMore(d: HttpNames.Dictionary, before: Response, sent: bytes, now: Response, kept: bytes, piece: bytes)
    requires Scannable(d, before) && Scannable(d, now) && ReadSoFar(d, before, sent, now, kept)
    ensures var p, q := Process(sent + piece), Process(kept + piece);
            match DeliverAll(d, now, q.events)
            case Failed => !p.dropped ==> DeliverAll(d, before, p.events).Failed?
            case Made(r) => ReadSoFar(d, before, sent + piece, r, q.rest)
  {
    hide Process, DeliverAll, Scannable;
    ProcessResumes(sent, piece);
    if Process(sent).dropped {
      DroppedStays(sent, piece);
    } else {
      DeliverJoins(d, before, Process(sent).events, Process(kept + piece).events);
    }
  }

  lemma InnerSlice(s: bytes, a: nat, b: nat, i: nat, j: nat)
    requires a <= b <= |s| && i <= j <= b - a
    ensures s[a..b][i..j] == s[a + i..a + j]
  {
    var inner, outer := s[a..b][i..j], s[a + i..a + j];
    assert forall k :: 0 <= k < j - i ==> inner[k] == outer[k];
  }

  /** The records before `offset` are done with, and have led to `now`. */
  ghost predicate Handled(
    d: HttpNames.Dictionary, before: Response, whole: bytes, offset: nat, done: seq<Event>, now: Response)
    requires Scannable(d, before)
  {
    && offset <= |whole| && DeliverAll(d, before, done) == Made(now)
    && var later := Process(whole[offset..]); Process(whole) == later.(events := done + later.events)
  }

  lemma HandledNone(d: HttpNames.Dictionary, r: Response, whole: bytes)
    requires Scannable(d, r)
    ensures Handled(d, r, whole, 0, [], r)
  {
    hide Process, DeliverAll;
    DeliverNothing(d, r);
    assert whole[0..] == whole;
    var later := Process(whole[0..]);
    assert [] + later.events == later.events;
    assert Process(whole) == later.(events := [] + later.events);
  }

  /** No whole record is left: the callbacks so far are all there are. */
  lemma HandledAll(d: HttpNames.Dictionary, before: Response, whole: bytes, offset: nat, done: seq<Event>, now: Response)
    requires Scannable(d, before) && Handled(d, before, whole, offset, done, now)
    requires !FrameOf(whole[offset..]).Whole?
    ensures DeliverAll(d, before, Process(whole).events) == Made(now)
    ensures Process(whole).rest == if FrameOf(whole[offset..]).Short? then whole[offset..] else []
  {
    hide FrameOf;
    assert done + [] == done;
  }

  /** One more record: either its callbacks fail, and with them the whole, or it is done with. */
  lemma HandledOne(d: HttpNames.Dictionary, before: Response, whole: bytes, offset: nat, done: seq<Event>, now: Response)
    requires Scannable(d, before) && Handled(d, before, whole, offset, done, now)
    requires FrameOf(whole[offset..]).Whole? && Scannable(d, now)
    ensures var f := FrameOf(whole[offset..]);
            var events := EventsOf(f.kind, f.requestId, f.content);
            match DeliverAll(d, now, events)
            case Failed => DeliverAll(d, before, Process(whole).events).Failed?
            case Made(r) => Handled(d, before, whole, offset + f.size, done + events, r)
  {
    hide EventsOf, DeliverAll, Scannable, Process;
    var f := FrameOf(whole[offset..]);
    WholeProcessed(whole[offset..]);
    hide FrameOf;
    var events, rest := EventsOf(f.kind, f.requestId, f.content), Process(whole[offset + f.size..]);
    assert whole[offset..][f.size..] == whole[offset + f.size..];
    DeliverJoins(d, before, done, events);
    Associative(done, events, rest.events);
    if DeliverAll(d, now, events).Failed? {
      DeliverFails(d, before, done + events, rest.events);
    }
  }

  lemma WholeProcessed(buf: bytes)
    requires FrameOf(buf).Whole?
    ensures var f := FrameOf(buf);
            var p := Process(buf[f.size..]);
            Process(buf) == p.(events := EventsOf(f.kind, f.requestId, f.content) + p.events)
  {
  }

  lemma DeliverNothing(d: HttpNames.Dictionary, r: Response)
    requires Scannable(d, r)
    ensures DeliverAll(d, r, []) == Made(r)
  {
  }

  lemma DeliverFirst(d: HttpNames.Dictionary, r: Response, event: Event)
    requires Scannable(d, r)
    ensures DeliverAll(d, r, [event]) == Deliver(d, r, event)
  {
    assert [event][1..] == [];
  }

  lemma {:induction false} DeliverValues(d: HttpNames.Dictionary, r: Response, pairs: seq<NameValue>)
    requires Scannable(d, r)
    ensures DeliverAll(d, r, Values(pairs)) == Made(r)
    decreases |pairs|
  {
    if pairs != [] {
      DeliverValues(d, r, pairs[1..]);
      assert Values(pairs)[1..] == Values(pairs[1..]);
    }
  }

  lemma {:induction false} DeliverJoins(d: HttpNames.Dictionary, r: Response, a: seq<Event>, b: seq<Event>)
    requires Scannable(d, r)
    ensures DeliverAll(d, r, a + b) == match DeliverAll(d, r, a)
                                       case Failed => Failed
                                       case Made(s) => DeliverAll(d, s, b)
    decreases |a|
  {
    hide Deliver, Scannable;
    if a == [] {
      assert a + b == b;
    } else {
      assert (a + b)[1..] == a[1..] + b;
      if Deliver(d, r, a[0]).Made? {
        DeliverJoins(d, Deliver(d, r, a[0]).response, a[1..], b);
      }
    }
  }

  lemma DeliverFails(d: HttpNames.Dictionary, r: Response, a: seq<Event>, b: seq<Event>)
    requires Scannable(d, r) && DeliverAll(d, r, a).Failed?
    ensures DeliverAll(d, r, a + b).Failed?
  {
    DeliverJoins(d, r, a, b);
  }
}

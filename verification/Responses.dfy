/** The states in which a response is sent, and what each of them still owes to the client. */
module Responses {
  import opened Bytes
  import opened Multipart
  import opened Sequences

  datatype State =
    | SendingTwoBuffers
    | SendingHeaders
    | SendingBody
    | SendingPartHeader
    | SendingMultipartFooter
    | SendingBackendHeaders
    | SendingBackendBody
    | RequestCompleted

  /**
   * What does not change while a response is sent. `file` is the content behind the descriptor in use: the
   * file asked for, or the temporary file a backend's payload was saved to. `body` is the body kept in memory.
   */
  datatype Response = Response(
    head: bool, failed: bool, filesize: nat, file: bytes, ranges: seq<Range>, body: bytes, payloadInMemory: bool,
    boundary: nat, mime: bytes)

  /** The fields that change: the state, the output buffer, the cursor and the current range. */
  datatype Point = Point(state: State, out: bytes, outp: nat, nrange: nat)

  predicate SendsFile(r: Response) {
    !r.head && !r.failed && r.filesize != 0
  }

  /** The part of a backend's payload that goes out together with the headers: none for HEAD, whatever is announced. */
  function Payload(r: Response): bytes
    requires r.payloadInMemory && !r.head ==> r.filesize <= |r.body|
  {
    if !r.payloadInMemory || r.filesize == 0 || r.head then [] else r.body[..r.filesize]
  }

  ghost predicate Valid(r: Response, p: Point) {
    && Within(r.ranges, |r.file|)
    && match p.state
       case SendingTwoBuffers => p.outp <= |p.out| + |r.body|
       case SendingHeaders =>
         p.outp <= |p.out| && p.nrange == 0 && (SendsFile(r) && r.ranges == [] ==> r.filesize <= |r.file|)
       case SendingBody =>
         if r.ranges == [] then p.outp <= r.filesize <= |r.file|
         else p.nrange < |r.ranges| && r.ranges[p.nrange].from <= p.outp <= r.ranges[p.nrange].to + 1
       case SendingPartHeader => p.outp <= |p.out| && p.nrange < |r.ranges| && |r.ranges| > 1
       case SendingMultipartFooter => p.outp <= |p.out|
       case SendingBackendHeaders =>
         && (if r.payloadInMemory then r.head || r.filesize <= |r.body| else r.filesize <= |r.file|)
         && p.outp <= |p.out| + |Payload(r)|
       case SendingBackendBody => p.outp <= r.filesize <= |r.file|
       case RequestCompleted => true
  }

  /** The bytes the cursor of a state runs over. */
  ghost function Data(r: Response, p: Point): bytes
    requires Valid(r, p)
  {
    match p.state
    case SendingTwoBuffers => p.out + r.body
    case SendingHeaders => p.out
    case SendingBody => r.file
    case SendingPartHeader => p.out
    case SendingMultipartFooter => p.out
    case SendingBackendHeaders => p.out + Payload(r)
    case SendingBackendBody => r.file
    case RequestCompleted => []
  }

  /** Where the cursor leaves the state. */
  ghost function Stop(r: Response, p: Point): (n: nat)
    requires Valid(r, p) && !p.state.RequestCompleted?
    ensures p.outp <= n <= |Data(r, p)|
  {
    if p.state.SendingBody? && r.ranges != [] then r.ranges[p.nrange].to + 1
    else if p.state.SendingBody? || p.state.SendingBackendBody? then r.filesize
    else |Data(r, p)|
  }

  /** What follows the range at `k`. */
  ghost function Tail(r: Response, k: nat): bytes
    requires Within(r.ranges, |r.file|) && k < |r.ranges|
  {
    if |r.ranges| == 1 then [] else Body(r.boundary, r.mime, r.file, r.ranges[k + 1..], r.filesize)
  }

  /** What is sent after the state. */
  ghost function After(r: Response, p: Point): bytes
    requires Valid(r, p)
  {
    match p.state
    case SendingHeaders =>
      if !SendsFile(r) then [] else if r.ranges == [] then r.file[..r.filesize]
      else Slice(r.file, r.ranges[0]) + Tail(r, 0)
    case SendingBody => if r.ranges == [] then [] else Tail(r, p.nrange)
    case SendingPartHeader => Slice(r.file, r.ranges[p.nrange]) + Tail(r, p.nrange)
    case SendingBackendHeaders => if r.payloadInMemory then [] else r.file[..r.filesize]
    case _ => []
  }

  /** Everything that is still to be sent. */
  ghost function Rest(r: Response, p: Point): bytes
    requires Valid(r, p)
  {
    if p.state.RequestCompleted? then [] else Data(r, p)[p.outp..Stop(r, p)] + After(r, p)
  }

  /** How many states are left at most. */
  ghost function Rank(r: Response, p: Point): nat
    requires Valid(r, p)
  {
    match p.state
    case SendingTwoBuffers => 1
    case SendingHeaders => 2 * |r.ranges| + 2
    case SendingBody => if r.ranges == [] then 1 else 2 * (|r.ranges| - p.nrange)
    case SendingPartHeader => 2 * (|r.ranges| - p.nrange) + 1
    case SendingMultipartFooter => 1
    case SendingBackendHeaders => 2
    case SendingBackendBody => 1
    case RequestCompleted => 0
  }

  ghost function Left(r: Response, p: Point): nat
    requires Valid(r, p)
  {
    |Rest(r, p)| + Rank(r, p)
  }

  lemma SameState(r: Response, p: Point, q: Point)
    requires Valid(r, p) && !p.state.RequestCompleted?
    requires q == p.(outp := q.outp) && p.outp <= q.outp <= Stop(r, p)
    ensures Valid(r, q) && Data(r, q) == Data(r, p) && Stop(r, q) == Stop(r, p)
  {
    hide Body, Slice, Tail, Payload, SendsFile;
  }

  lemma SameAfter(r: Response, p: Point, q: Point)
    requires Valid(r, p) && Valid(r, q) && q == p.(outp := q.outp)
    ensures After(r, q) == After(r, p) && Rank(r, q) == Rank(r, p)
  {
    hide Body, Slice, Tail, SendsFile;
  }

  /** Moving the cursor takes the bytes it passes off the front of what is left. */
  lemma Advance(r: Response, p: Point, q: Point)
    requires Valid(r, p) && !p.state.RequestCompleted?
    requires q == p.(outp := q.outp) && p.outp <= q.outp <= Stop(r, p)
    ensures Valid(r, q) && q.state == p.state && Data(r, q) == Data(r, p) && Stop(r, q) == Stop(r, p)
    ensures Rest(r, p) == Data(r, p)[p.outp..q.outp] + Rest(r, q)
    ensures Left(r, p) == Left(r, q) + (q.outp - p.outp)
  {
    hide Valid, Data, Stop, After, Rank;
    SameState(r, p, q);
    SameAfter(r, p, q);
    var d, s := Data(r, p), Stop(r, p);
    assert d[p.outp..s] == d[p.outp..q.outp] + d[q.outp..s];
  }

  /** The state that follows when the cursor has reached the end of one. */
  ghost function Next(r: Response, p: Point): Point
    requires Valid(r, p) && !p.state.RequestCompleted?
  {
    match p.state
    case SendingHeaders =>
      if !SendsFile(r) then p.(state := RequestCompleted)
      else p.(state := SendingBody, outp := if r.ranges == [] then 0 else r.ranges[0].from)
    case SendingBody =>
      if |r.ranges| < 2 then p.(state := RequestCompleted)
      else if p.nrange + 1 == |r.ranges| then Point(SendingMultipartFooter, Footer(r.boundary), 0, p.nrange + 1)
      else
        var header := PartHeader(r.boundary, r.mime, r.ranges[p.nrange + 1], r.filesize);
        Point(SendingPartHeader, header, 0, p.nrange + 1)
    case SendingPartHeader => p.(state := SendingBody, outp := r.ranges[p.nrange].from)
    case SendingBackendHeaders =>
      if r.payloadInMemory then p.(state := RequestCompleted) else p.(state := SendingBackendBody, outp := 0)
    case _ => p.(state := RequestCompleted)
  }

  /** With the cursor at the start of the output buffer, all of the buffer is owed. */
  lemma FromBuffer(r: Response, p: Point)
    requires Valid(r, p) && p.outp == 0
    requires p.state in {SendingHeaders, SendingPartHeader, SendingMultipartFooter}
    ensures Rest(r, p) == p.out + After(r, p)
  {
    hide After;
    assert p.out[0..|p.out|] == p.out;
  }

  /** What follows a range of several: the next part, or the closing delimiter after the last. */
  lemma TailStep(r: Response, k: nat)
    requires Within(r.ranges, |r.file|) && k < |r.ranges| && |r.ranges| > 1
    ensures k + 1 == |r.ranges| ==> Tail(r, k) == Footer(r.boundary)
    ensures k + 1 < |r.ranges| ==>
              Tail(r, k) == PartHeader(r.boundary, r.mime, r.ranges[k + 1], r.filesize)
                            + (Slice(r.file, r.ranges[k + 1]) + Tail(r, k + 1))
  {
    hide PartHeader, Footer;
    if k + 1 < |r.ranges| {
      assert r.ranges[k + 1..][1..] == r.ranges[k + 2..];
    }
  }

  lemma AfterRange(r: Response, p: Point)
    requires Valid(r, p) && p.state.SendingBody? && p.outp == Stop(r, p)
    ensures var q := Next(r, p); Valid(r, q) && Rest(r, q) == After(r, p) && Rank(r, q) < Rank(r, p)
  {
    hide PartHeader, Footer, Body, Tail, Rest, Slice;
    var q := Next(r, p);
    if |r.ranges| >= 2 {
      TailStep(r, p.nrange);
      FromBuffer(r, q);
    } else {
      assert Rest(r, q) == [] by {
        Done(r, q);
      }
      if |r.ranges| == 1 {
        OnlyRange(r);
      }
    }
  }

  lemma Done(r: Response, p: Point)
    requires Valid(r, p) && p.state.RequestCompleted?
    ensures Rest(r, p) == []
  {
  }

  lemma OnlyRange(r: Response)
    requires Within(r.ranges, |r.file|) && |r.ranges| == 1
    ensures Tail(r, 0) == []
  {
  }

  lemma AfterHeaders(r: Response, p: Point)
    requires Valid(r, p) && p.state.SendingHeaders? && p.outp == Stop(r, p)
    ensures var q := Next(r, p); Valid(r, q) && Rest(r, q) == After(r, p) && Rank(r, q) < Rank(r, p)
  {
    hide Tail, SendsFile;
    if SendsFile(r) && r.ranges == [] {
      assert r.file[0..r.filesize] == r.file[..r.filesize];
    }
  }

  lemma AfterOthers(r: Response, p: Point)
    requires Valid(r, p) && !p.state.RequestCompleted? && !p.state.SendingBody? && !p.state.SendingHeaders?
    requires p.outp == Stop(r, p)
    ensures var q := Next(r, p); Valid(r, q) && Rest(r, q) == After(r, p) && Rank(r, q) < Rank(r, p)
  {
    hide Tail, SendsFile;
    if p.state.SendingBackendHeaders? && !r.payloadInMemory {
      assert r.file[0..r.filesize] == r.file[..r.filesize];
    }
  }

  /** Changing state neither loses nor repeats a byte. */
  lemma NextOwesTheSame(r: Response, p: Point)
    requires Valid(r, p) && !p.state.RequestCompleted? && p.outp == Stop(r, p)
    ensures var q := Next(r, p); Valid(r, q) && Rest(r, q) == Rest(r, p) && Left(r, q) < Left(r, p)
  {
    hide Next, Rest, Rank, After, Stop;
    match p.state {
      case SendingBody => AfterRange(r, p);
      case SendingHeaders => AfterHeaders(r, p);
      case _ => AfterOthers(r, p);
    }
    NothingLeftHere(r, p);
  }

  lemma NothingLeftHere(r: Response, p: Point)
    requires Valid(r, p) && !p.state.RequestCompleted? && p.outp == Stop(r, p)
    ensures Rest(r, p) == After(r, p)
  {
    hide After, Data, Stop;
  }

  /** A step moves the cursor and, at the end of a state, goes on to the next. */
  lemma Stepping(r: Response, p: Point, m: Point, q: Point, ok: bool)
    requires Valid(r, p) && !p.state.RequestCompleted?
    requires m == p.(outp := m.outp) && p.outp <= m.outp <= Stop(r, p)
    requires Valid(r, m) && q == if ok && m.outp == Stop(r, p) then Next(r, m) else m
    ensures Valid(r, q) && Rest(r, p) == Data(r, p)[p.outp..m.outp] + Rest(r, q)
    ensures Left(r, q) + (m.outp - p.outp) <= Left(r, p)
    ensures ok && m.outp == Stop(r, p) ==> Left(r, q) < Left(r, p)
  {
    hide Valid, Rest, Data, Stop, Left, Next;
    Advance(r, p, m);
    if ok && m.outp == Stop(r, p) {
      NextOwesTheSame(r, m);
    }
  }

  /** Nothing is owed at the end, and elsewhere there is something left to do. */
  lemma Owed(r: Response, p: Point)
    requires Valid(r, p)
    ensures p.state.RequestCompleted? ==> Rest(r, p) == []
    ensures p.state.RequestCompleted? <==> Left(r, p) == 0
  {
    hide Body, Slice, Tail, After;
  }

  /** A response is the header block and one of these bodies. */
  ghost function Content(r: Response): bytes
    requires Within(r.ranges, |r.file|) && (r.ranges == [] ==> r.filesize <= |r.file|)
  {
    if r.ranges == [] then r.file[..r.filesize]
    else if |r.ranges| == 1 then Slice(r.file, r.ranges[0])
    else Body(r.boundary, r.mime, r.file, r.ranges, r.filesize)
  }

  /** The header of the first part is put in the output buffer behind the header block. */
  function Opening(r: Response): bytes {
    if |r.ranges| < 2 then [] else PartHeader(r.boundary, r.mime, r.ranges[0], r.filesize)
  }

  /** The start of the response for a file. */
  function Start(r: Response, header: bytes): Point {
    Point(SendingHeaders, header + Opening(r), 0, 0)
  }

  /** A file response owes its header block and the whole file, the one range, or the multipart body. */
  lemma FileResponse(r: Response, header: bytes)
    requires Within(r.ranges, |r.file|) && (r.ranges == [] ==> r.filesize <= |r.file|) && SendsFile(r)
    ensures Valid(r, Start(r, header)) && Rest(r, Start(r, header)) == header + Content(r)
  {
    hide Body, Opening, Tail, Content, Slice, Rest;
    FromBuffer(r, Start(r, header));
    FirstPart(r);
    var rest := if r.ranges == [] then r.file[..r.filesize] else Slice(r.file, r.ranges[0]) + Tail(r, 0);
    Associative(header, Opening(r), rest);
  }

  lemma FirstPart(r: Response)
    requires Within(r.ranges, |r.file|) && (r.ranges == [] ==> r.filesize <= |r.file|)
    ensures r.ranges == [] ==> Opening(r) + r.file[..r.filesize] == Content(r)
    ensures r.ranges != [] ==> Opening(r) + (Slice(r.file, r.ranges[0]) + Tail(r, 0)) == Content(r)
  {
    hide PartHeader, Footer;
    if |r.ranges| == 1 {
      OnlyRange(r);
    }
  }

  /**
   * What has been prepared for a file: ranges are read for GET alone, and HEAD sets the size to zero. The size of
   * several ranges is the announced one, which says little about them.
   */
  predicate OfFile(r: Response) {
    && !r.failed && Within(r.ranges, |r.file|)
    && (r.head ==> r.ranges == [] && r.filesize == 0)
    && (!r.head && r.ranges == [] ==> r.filesize == |r.file|)
    && (|r.ranges| == 1 ==> r.filesize == r.ranges[0].to - r.ranges[0].from + 1)
  }

  /** The response to a request for a file owes its header block alone if and only if it is for HEAD or the file is empty. */
  lemma BodilessResponse(r: Response, header: bytes)
    requires OfFile(r)
    ensures Valid(r, Start(r, header)) && (Rest(r, Start(r, header)) == header <==> r.head || r.file == [])
  {
    hide Padded, Rest, After, Body, Tail, Opening;
    OpeningIsLong(r);
    if SendsFile(r) {
      hide Valid, Content;
      FileResponse(r, header);
      ContentIsLong(r);
    } else {
      FromBuffer(r, Start(r, header));
      assert After(r, Start(r, header)) == [] by {
        NothingAfter(r, Start(r, header));
      }
    }
  }

  lemma OpeningIsLong(r: Response)
    ensures Opening(r) == [] <==> |r.ranges| < 2
  {
    hide Padded;
  }

  lemma NothingAfter(r: Response, p: Point)
    requires Valid(r, p) && p.state.SendingHeaders? && !SendsFile(r)
    ensures After(r, p) == []
  {
  }

  lemma ContentIsLong(r: Response)
    requires OfFile(r) && SendsFile(r)
    ensures Content(r) != []
  {
    hide Padded, Slice, Footer;
  }

  /** How a page is sent: an error page, or the listing of a directory. Ranges read before an error stay behind. */
  function PageStart(r: Response, header: bytes): Point {
    Point(if r.head || r.body == [] then SendingHeaders else SendingTwoBuffers, header, 0, 0)
  }

  /** A page owes its header block and its body, but for HEAD the header block alone, whatever ranges were asked for. */
  lemma PageResponse(r: Response, header: bytes)
    requires Within(r.ranges, |r.file|)
    requires r.head || r.body == [] ==> r.filesize == 0
    ensures var p := PageStart(r, header);
            Valid(r, p) && Rest(r, p) == header + (if r.head then [] else r.body)
  {
    var p := PageStart(r, header);
    if r.head || r.body == [] {
      hide Valid, Rest, After;
      assert Valid(r, p) by {
        PageFits(r, header);
      }
      FromBuffer(r, p);
      NothingAfter(r, p);
    } else {
      assert header + r.body + [] == header + r.body;
    }
  }

  lemma PageFits(r: Response, header: bytes)
    requires Within(r.ranges, |r.file|) && r.filesize == 0
    ensures Valid(r, Point(SendingHeaders, header, 0, 0))
  {
  }

  /**
   * A backend's response owes its header block and its payload, in memory or from the temporary file. For HEAD it
   * owes the header block alone unless a payload has been saved; the announced size may exceed what was received.
   */
  lemma BackendResponse(r: Response, header: bytes)
    requires Within(r.ranges, |r.file|)
    requires if r.payloadInMemory then r.head || r.filesize <= |r.body| else r.filesize <= |r.file|
    ensures var p := Point(SendingBackendHeaders, header, 0, 0);
            && Valid(r, p)
            && (!r.head ==>
                  Rest(r, p) == header + (if r.payloadInMemory then r.body else r.file)[..r.filesize])
            && (r.head ==> (Rest(r, p) == header <==> r.payloadInMemory || r.filesize == 0))
  {
    var p := Point(SendingBackendHeaders, header, 0, 0);
    assert Data(r, p)[0..Stop(r, p)] == header + Payload(r);
    assert header + Payload(r) + [] == header + Payload(r);
    if r.payloadInMemory {
      if !r.head && r.filesize == 0 {
        assert r.body[..r.filesize] == [];
      }
    } else {
      assert header + [] + r.file[..r.filesize] == header + r.file[..r.filesize];
    }
  }
}

/** Sending a response over a socket that takes as much as it likes of each call. */
module HttpConnection {
  import opened Buffers
  import opened Bytes
  import opened Responses
  import M = Multipart
  import MultipartReading
  import opened Sequences
  import opened Numbers

  const UINT_MAX: nat := 0xffff_ffff
  const IOV_MAX: nat := 1024

  /**
   * What the kernel answers to a call: how many bytes it is ready to take, or an error. Only `sendfile` may
   * have moved bytes before it fails.
   */
  datatype Answer = Accepted(n: nat) | WouldBlock(n: nat) | Interrupted(n: nat) | Failed(n: nat)

  /** What a call leaves behind: success, the bytes sent, and the two flags of the connection. */
  datatype Reaction = Reaction(ok: bool, sent: nat, writable: bool, inReadyList: bool)

  /** What the count of a round leaves of its write quota; beyond the quota the difference wraps around. */
  function Quota(maxWrite: SizeT, total: nat): (n: nat)
    ensures total <= maxWrite ==> n == maxWrite - total
  {
    (maxWrite - total) % SIZE_T
  }

  /** What the quota allows of a request to send. */
  function Allowed(wanted: nat, maxWrite: SizeT, total: nat): (n: nat)
    ensures n <= wanted && (maxWrite > 0 && total <= maxWrite ==> total + n <= maxWrite)
  {
    if maxWrite > 0 then Min(wanted, Quota(maxWrite, total)) else wanted
  }

  /** No call asks for more than the quota, whatever there is to send, if and only if the count is within it. */
  lemma QuotaHoldsIff(maxWrite: SizeT, total: SizeT)
    requires maxWrite > 0
    ensures (forall wanted: nat :: Allowed(wanted, maxWrite, total) <= maxWrite) <==> total <= maxWrite
  {
    if total > maxWrite {
      assert Quota(maxWrite, total) == SIZE_T + maxWrite - total > maxWrite;
      assert Allowed(SIZE_T, maxWrite, total) > maxWrite;
    }
  }

  /** A call for `count` bytes: a short count or EAGAIN clears `writable`, EINTR asks for another round. */
  function React(answer: Answer, count: nat, file: bool, writable: bool, inReadyList: bool): (r: Reaction)
    ensures r.sent <= count
  {
    var moved := if file then Min(answer.n, count) else 0;
    match answer
    case Accepted(n) =>
      var sent := Min(n, count);
      Reaction(true, sent, writable && (sent == 0 || sent == count), inReadyList)
    case WouldBlock(_) => Reaction(true, moved, false, inReadyList)
    case Interrupted(_) => Reaction(true, moved, writable, true)
    case Failed(_) => Reaction(false, moved, writable, inReadyList)
  }

  /** The changing state of a connection, with what it has sent. */
  datatype Moment = Moment(at: Point, wire: bytes, writable: bool, inReadyList: bool)

  /** A system call: suppressed because the quota is spent, or made for `count` bytes of memory or of a file. */
  datatype Call = Call(spent: bool, count: nat, file: bool)

  /** The call for one buffer or a file with `wanted` bytes left. */
  function CallFor(wanted: nat, maxWrite: SizeT, total: nat, file: bool): (call: Call)
    ensures call.file == file && call.count <= wanted
  {
    var count := Allowed(wanted, maxWrite, total);
    Call(maxWrite > 0 && count == 0, count, file)
  }

  /** The call for several buffers, which are never more than `UINT_MAX` bytes. */
  function VectorCall(wanted: nat, maxWrite: SizeT, total: nat): (call: Call)
    ensures maxWrite == 0 ==> call == Call(false, if wanted < 0x1_0000_0000 then wanted else 0xffff_ffff, false)
  {
    var left := if maxWrite > 0 then Quota(maxWrite, total) else UINT_MAX;
    Call(left == 0, Min(left, wanted), false)
  }

  ghost predicate Appended(before: bytes, data: bytes, from: nat, to: nat, after: bytes) {
    from <= to <= |data| && after == before + data[from..to]
  }

  lemma IsAppended(wire: bytes, data: bytes, from: nat, to: nat)
    requires from <= to <= |data|
    ensures Appended(wire, data, from, to, wire + data[from..to])
  {
  }

  lemma NothingAppended(wire: bytes, data: bytes, from: nat)
    requires from <= |data|
    ensures Appended(wire, data, from, from, wire)
  {
  }

  /** What a call for bytes in memory does, by cases. */
  lemma MemorySent(
    data: bytes, count: nat, answer: Answer, total: nat, ok: bool, sum: nat, before: Moment, after: Moment)
    requires before.at.outp + count <= |data|
    requires var ret := if answer.Accepted? then Min(answer.n, count) else 0;
             && after.at == before.at.(outp := before.at.outp + ret)
             && Appended(before.wire, data, before.at.outp, after.at.outp, after.wire)
             && ok == !answer.Failed?
             && sum == total + ret
             && after.writable == (before.writable && !answer.WouldBlock? && !(0 < ret < count))
             && after.inReadyList == (before.inReadyList || answer.Interrupted?)
    ensures Sent(data, |data|, Call(false, count, false), answer, total, ok, sum, before, after)
  {
    hide Appended;
  }

  /** What a call for part of a file does, by cases. */
  lemma FileSent(
    data: bytes, stop: nat, count: nat, answer: Answer, total: nat, ok: bool, sum: nat, before: Moment, after: Moment)
    requires before.at.outp + count <= stop <= |data|
    requires var ret := Min(answer.n, count);
             && after.at == before.at.(outp := before.at.outp + ret)
             && Appended(before.wire, data, before.at.outp, after.at.outp, after.wire)
             && ok == !answer.Failed?
             && sum == (if ok then total + ret else total)
             && after.writable == (before.writable && !answer.WouldBlock? && !(answer.Accepted? && 0 < ret < count))
             && after.inReadyList == (before.inReadyList || answer.Interrupted?)
    ensures Sent(data, stop, Call(false, count, true), answer, total, ok, sum, before, after)
  {
    hide Appended;
  }

  /** What a call does: the bytes taken go to the wire, the cursor and the count of the round move with them. */
  ghost predicate Sent(
    data: bytes, stop: nat, call: Call, answer: Answer, total: nat, ok: bool, sum: nat, before: Moment, after: Moment)
    requires before.at.outp <= stop <= |data|
  {
    var sent := after.at.outp - before.at.outp;
    && after.at == before.at.(outp := after.at.outp)
    && 0 <= sent <= stop - before.at.outp
    && Appended(before.wire, data, before.at.outp, after.at.outp, after.wire)
    && sum == (if ok then total + sent else total)
    && var r := if call.spent then Reaction(true, 0, before.writable, true)
                else React(answer, call.count, call.file, before.writable, before.inReadyList);
       ok == r.ok && sent == r.sent && after.writable == r.writable && after.inReadyList == r.inReadyList
  }

  /** Skips the buffers that the cursor has passed. */
  method Skip(buffers: seq<bytes>, outp: nat) returns (i: nat, offset: nat)
    requires outp <= |Flatten(buffers)|
    ensures i <= |buffers| && offset <= |Flatten(buffers[i..])| && (i < |buffers| ==> offset < |buffers[i]|)
    ensures Flatten(buffers[i..])[offset..] == Flatten(buffers)[outp..]
  {
    offset, i := outp, 0;
    while i < |buffers| && offset >= |buffers[i]|
      invariant i <= |buffers| && offset <= |Flatten(buffers[i..])|
      invariant Flatten(buffers[i..])[offset..] == Flatten(buffers)[outp..]
    {
      DropFirst(buffers, i);
      offset := offset - |buffers[i]|;
      i := i + 1;
    }
  }

  /** The pieces gathered so far are the front of what is wanted; unless the limit is reached, the rest follows. */
  ghost predicate Gathered(wanted: bytes, buffers: seq<bytes>, i: nat, offset: nat, iov: seq<bytes>, count: nat, left: nat) {
    && i <= |buffers| && |iov| <= i
    && |Flatten(iov)| == count && Flatten(iov) <= wanted
    && (left > 0 ==>
          && offset <= |Flatten(buffers[i..])| && (i < |buffers| ==> offset <= |buffers[i]|)
          && wanted == Flatten(iov) + Flatten(buffers[i..])[offset..])
  }

  /** The vector handed to `writev`: the next `count` bytes of the buffers from the cursor on. */
  method Gather(buffers: seq<bytes>, outp: nat, limit: nat) returns (iov: seq<bytes>, count: nat)
    requires outp <= |Flatten(buffers)|
    ensures count == Min(limit, |Flatten(buffers)| - outp)
    ensures Flatten(iov) == Flatten(buffers)[outp..][..count] && |iov| <= |buffers|
  {
    hide Flatten, Gathered;
    var i: nat, offset: nat := Skip(buffers, outp);
    ghost var wanted := Flatten(buffers)[outp..];
    iov, count := [], 0;
    var left: nat := limit;
    GatheredNone(wanted, buffers, i, offset, left);
    while i < |buffers| && left > 0
      invariant i <= |buffers| && left + count == limit && Gathered(wanted, buffers, i, offset, iov, count, left)
      decreases |buffers| - i
    {
      FirstHolds(wanted, buffers, i, offset, iov, count, left);
      var n := Min(|buffers[i]| - offset, left);
      var piece := buffers[i][offset..offset + n];
      GatheredMore(wanted, buffers, i, offset, iov, count, left, n);
      iov := iov + [piece];
      left := left - n;
      count := count + n;
      offset := 0;
      i := i + 1;
    }
    GatheredAll(wanted, buffers, i, offset, iov, count, left);
  }

  lemma GatheredNone(wanted: bytes, buffers: seq<bytes>, i: nat, offset: nat, left: nat)
    requires i <= |buffers| && offset <= |Flatten(buffers[i..])| && (i < |buffers| ==> offset <= |buffers[i]|)
    requires wanted == Flatten(buffers[i..])[offset..]
    ensures Gathered(wanted, buffers, i, offset, [], 0, left)
  {
  }

  lemma FirstHolds(wanted: bytes, buffers: seq<bytes>, i: nat, offset: nat, iov: seq<bytes>, count: nat, left: nat)
    requires i < |buffers| && left > 0 && Gathered(wanted, buffers, i, offset, iov, count, left)
    ensures offset <= |buffers[i]|
  {
    hide Flatten;
  }

  lemma GatheredMore(
    wanted: bytes, buffers: seq<bytes>, i: nat, offset: nat, iov: seq<bytes>, count: nat, left: nat, n: nat)
    requires i < |buffers| && left > 0 && Gathered(wanted, buffers, i, offset, iov, count, left)
    requires offset <= |buffers[i]| && n == Min(|buffers[i]| - offset, left)
    ensures Gathered(wanted, buffers, i + 1, 0, iov + [buffers[i][offset..offset + n]], count + n, left - n)
  {
    hide Flatten;
    DropFirst(buffers, i);
    TakePiece(wanted, Flatten(iov), buffers[i], Flatten(buffers[i + 1..]), offset, n);
    FlattenSnoc(iov, buffers[i][offset..offset + n]);
  }

  lemma GatheredAll(wanted: bytes, buffers: seq<bytes>, i: nat, offset: nat, iov: seq<bytes>, count: nat, left: nat)
    requires Gathered(wanted, buffers, i, offset, iov, count, left) && (i == |buffers| || left == 0)
    ensures Flatten(iov) == wanted[..count] && |iov| <= |buffers| && count == Min(count + left, |wanted|)
  {
    hide Flatten;
    if left > 0 {
      assert buffers[i..] == [];
      NoBuffers();
    }
  }

  lemma NoBuffers()
    ensures Flatten<byte>([]) == []
  {
  }

  /** Taking `n` more bytes, of the first buffer left. */
  lemma TakePiece(wanted: bytes, taken: bytes, first: bytes, others: bytes, offset: nat, n: nat)
    requires offset + n <= |first| && wanted == taken + (first + others)[offset..]
    ensures taken + first[offset..offset + n] <= wanted
    ensures offset + n == |first| ==> wanted == taken + first[offset..offset + n] + others[0..]
  {
    var piece := first[offset..offset + n];
    assert (first + others)[offset..] == piece + (first[offset + n..] + others);
    assert wanted == taken + piece + (first[offset + n..] + others);
  }

  lemma TwoBuffers(a: bytes, b: bytes)
    ensures Flatten([a, b]) == a + b
  {
    assert [a, b][1..] == [b];
    assert Flatten([b]) == b + Flatten([]);
  }

  lemma SubSlice(s: bytes, from: nat, count: nat, n: nat)
    requires n <= count && from + count <= |s|
    ensures s[from..][..count][..n] == s[from..from + n]
  {
  }

  lemma DropFirst(buffers: seq<bytes>, i: nat)
    requires i < |buffers|
    ensures Flatten(buffers[i..]) == buffers[i] + Flatten(buffers[i + 1..])
  {
    assert buffers[i..][1..] == buffers[i + 1..];
  }

  /** A page is being sent, from memory alone. */
  predicate OfPage(r: Response, p: Point) {
    p.state.SendingTwoBuffers? || (p.state.SendingHeaders? && !SendsFile(r)) || p.state.RequestCompleted?
  }

  /**
   * The bytes read of a malformed request stay in the count of the round, which may then be beyond the quota when
   * its error page is sent. In all other rounds the count begins with zero.
   */
  predicate InCount(r: Response, p: Point, maxWrite: SizeT, total: nat) {
    maxWrite > 0 && total > maxWrite ==> OfPage(r, p)
  }

  /** Anything else than a page begins within the quota. */
  lemma InQuota(r: Response, p: Point, maxWrite: SizeT, total: nat)
    requires InCount(r, p, maxWrite, total)
    requires !p.state.RequestCompleted?
    ensures p.state.SendingTwoBuffers? || p.state.SendingHeaders? || (maxWrite > 0 ==> total <= maxWrite)
  {
  }

  /**
   * What every step does: it moves bytes from the front of what is owed to the wire, keeps to the quota if the
   * count is within it, and, when the socket takes something, comes closer to the end. An answer of zero bytes
   * changes nothing at all.
   */
  ghost predicate Stepped(
    r: Response, maxWrite: SizeT, answer: Answer, total: nat, ok: bool, sum: nat, before: Moment, after: Moment)
    requires Responses.Valid(r, before.at)
  {
    && Responses.Valid(r, after.at) && before.wire <= after.wire
    && after.wire + Rest(r, after.at) == before.wire + Rest(r, before.at)
    && sum == (if ok then total + (|after.wire| - |before.wire|) else total)
    && (maxWrite > 0 && total <= maxWrite ==> total + (|after.wire| - |before.wire|) <= maxWrite)
    && (OfPage(r, before.at) ==> OfPage(r, after.at))
    && Left(r, after.at) <= Left(r, before.at)
    && (ok && answer.Accepted? && answer.n > 0 && (!after.inReadyList || maxWrite == 0 || total < maxWrite)
        ==> Left(r, after.at) < Left(r, before.at))
    && (ok && !answer.Accepted? ==> !after.writable || after.inReadyList)
    && (after.writable ==> before.writable) && (before.inReadyList ==> after.inReadyList)
    && (answer == Accepted(0) && Wants(r, before.at) && (maxWrite > 0 ==> total < maxWrite)
        ==> ok && after == before)
  }

  /** There is something to send before the state ends. */
  ghost predicate Wants(r: Response, p: Point)
    requires Responses.Valid(r, p)
  {
    !p.state.RequestCompleted? && p.outp < Stop(r, p)
  }

  lemma SameButCursor(
    data: bytes, stop: nat, call: Call, answer: Answer, total: nat, ok: bool, sum: nat, before: Moment, after: Moment)
    requires before.at.outp <= stop <= |data| && Sent(data, stop, call, answer, total, ok, sum, before, after)
    ensures after.at == before.at.(outp := after.at.outp) && before.at.outp <= after.at.outp <= stop
  {
  }

  lemma StepDone(
    r: Response, maxWrite: SizeT, answer: Answer, total: nat, ok: bool, sum: nat, call: Call, before: Moment,
    m: Moment, after: Moment)
    requires Responses.Valid(r, before.at) && !before.at.state.RequestCompleted?
    requires Sent(Data(r, before.at), Stop(r, before.at), call, answer, total, ok, sum, before, m)
    requires Responses.Valid(r, m.at)
    requires after == m.(at := if ok && m.at.outp == Stop(r, before.at) then Next(r, m.at) else m.at)
    requires call == CallFor(Stop(r, before.at) - before.at.outp, maxWrite, total, call.file)
             || call == VectorCall(Stop(r, before.at) - before.at.outp, maxWrite, total)
    ensures Stepped(r, maxWrite, answer, total, ok, sum, before, after)
  {
    hide Responses.Valid, Left, Rest, Data, Stop, Next, OfPage;
    Stepping(r, before.at, m.at, after.at, ok);
    PageStays(r, before.at, m.at);
  }

  lemma PageStays(r: Response, p: Point, m: Point)
    requires Responses.Valid(r, m) && !m.state.RequestCompleted? && m == p.(outp := m.outp)
    ensures OfPage(r, p) ==> OfPage(r, m) && OfPage(r, Next(r, m))
  {
  }

  class Connection {
    const response: Response
    const maxWrite: SizeT

    var state: State
    var out: bytes
    var outp: nat
    var nrange: nat
    var writable: bool
    var inReadyList: bool

    /** Everything the kernel has taken. */
    ghost var wire: bytes

    ghost function At(): Point
      reads this
    {
      Point(state, out, outp, nrange)
    }

    ghost function Now(): Moment
      reads this
    {
      Moment(At(), wire, writable, inReadyList)
    }

    ghost predicate Valid()
      reads this
    {
      Responses.Valid(response, At())
    }

    /** The bytes sent and those still owed: what every step keeps. */
    ghost function Whole(): bytes
      requires Valid()
      reads this
    {
      wire + Rest(response, At())
    }

    constructor (response: Response, maxWrite: SizeT, state: State, out: bytes)
      requires Responses.Valid(response, Point(state, out, 0, 0))
      ensures Valid() && At() == Point(state, out, 0, 0) && wire == [] && writable && !inReadyList
      ensures this.response == response && this.maxWrite == maxWrite
    {
      this.response := response;
      this.maxWrite := maxWrite;
      this.state := state;
      this.out := out;
      outp, nrange, writable, inReadyList := 0, 0, true, false;
      wire := [];
    }

    /** Sends from the output buffer. */
    method Write(answer: Answer, total: nat) returns (ok: bool, sum: nat)
      requires outp <= |out|
      modifies this`outp, this`writable, this`inReadyList, this`wire
      ensures var call := CallFor(|out| - old(outp), maxWrite, total, false);
              Sent(out, |out|, call, answer, total, ok, sum, old(Now()), Now())
    {
      hide Appended;
      NothingAppended(wire, out, outp);
      ok, sum := true, total;
      var count := |out| - outp;
      if maxWrite > 0 {
        count := Min(count, Quota(maxWrite, total));
        if count == 0 {
          inReadyList := true;
          return;
        }
      }
      match answer {
        case WouldBlock(_) => writable := false;
        case Interrupted(_) => inReadyList := true;
        case Failed(_) => ok := false;
        case Accepted(n) =>
          var ret := Min(n, count);
          if ret > 0 {
            wire := wire + out[outp..outp + ret];
            IsAppended(old(wire), out, outp, outp + ret);
            outp := outp + ret;
            sum := total + ret;
            if ret < count {
              writable := false;
            }
          }
      }
    }

    /** Sends from several buffers as if they were one. */
    method Writev(buffers: seq<bytes>, answer: Answer, total: nat) returns (ok: bool, sum: nat)
      requires outp <= |Flatten(buffers)|
      modifies this`outp, this`writable, this`inReadyList, this`wire
      ensures |buffers| > 1024 ==> !ok && sum == total && Now() == old(Now())
      ensures |buffers| <= 1024 ==>
                var call := VectorCall(|Flatten(buffers)| - old(outp), maxWrite, total);
                Sent(Flatten(buffers), |Flatten(buffers)|, call, answer, total, ok, sum, old(Now()), Now())
    {
      hide Flatten, Appended, React;
      NothingAppended(wire, Flatten(buffers), outp);
      ok, sum := true, total;
      if |buffers| > IOV_MAX {
        ok := false;
        return;
      }
      var left := UINT_MAX;
      if maxWrite > 0 {
        left := Quota(maxWrite, total);
        if left == 0 {
          inReadyList := true;
          return;
        }
      }
      ghost var before := Now();
      var iov, count := Gather(buffers, outp, left);
      match answer {
        case WouldBlock(_) => writable := false;
        case Interrupted(_) => inReadyList := true;
        case Failed(_) => ok := false;
        case Accepted(n) =>
          var ret := Min(n, count);
          if ret > 0 {
            wire := wire + Flatten(iov)[..ret];
            SubSlice(Flatten(buffers), outp, count, ret);
            IsAppended(old(wire), Flatten(buffers), outp, outp + ret);
            outp := outp + ret;
            sum := total + ret;
            if ret < count {
              writable := false;
            }
          }
      }
      MemorySent(Flatten(buffers), count, answer, total, ok, sum, before, Now());
    }

    /** Where the bytes to send from the file end: at its size, or after the current range. */
    function End(ranges: seq<M.Range>, k: nat): nat
      requires ranges != [] ==> k < |ranges|
    {
      if |ranges| == 0 then response.filesize else ranges[k].to + 1
    }

    /** The system's part of sending from a file: it moves the cursor by what it takes, whatever it answers. */
    method Transfer(taken: nat, count: nat) returns (ret: nat)
      requires outp + count <= |response.file|
      modifies this`outp, this`wire
      ensures ret == Min(taken, count) && outp == old(outp) + ret
      ensures Appended(old(wire), response.file, old(outp), outp, wire)
    {
      ret := Min(taken, count);
      wire := wire + response.file[outp..outp + ret];
      outp := outp + ret;
    }

    /** Sends from the file, up to the end of the current range if there are ranges. */
    method Sendfile(ranges: seq<M.Range>, k: nat, answer: Answer, total: nat) returns (ok: bool, sum: nat)
      requires ranges != [] ==> k < |ranges|
      requires outp <= End(ranges, k) <= |response.file|
      requires maxWrite > 0 ==> total <= maxWrite
      modifies this`outp, this`writable, this`inReadyList, this`wire
      ensures var call := CallFor(End(ranges, k) - old(outp), maxWrite, total, true);
              Sent(response.file, End(ranges, k), call, answer, total, ok, sum, old(Now()), Now())
    {
      hide End, Appended, React;
      NothingAppended(wire, response.file, outp);
      ok, sum := true, total;
      var count := End(ranges, k) - outp;
      if maxWrite > 0 {
        count := Min(count, maxWrite - total);
        if count == 0 {
          inReadyList := true;
          return;
        }
      }
      ghost var before := Now();
      var ret := Transfer(answer.n, count);
      match answer {
        case WouldBlock(_) =>
          sum := total + ret;
          writable := false;
        case Interrupted(_) =>
          sum := total + ret;
          inReadyList := true;
        case Failed(_) => ok := false;
        case Accepted(_) =>
          sum := total + ret;
          if 0 < ret < count {
            writable := false;
          }
      }
      FileSent(response.file, End(ranges, k), count, answer, total, ok, sum, before, Now());
    }

    method SendTwoBuffers(answer: Answer, total: nat) returns (ok: bool, sum: nat)
      requires Valid() && state.SendingTwoBuffers?
      modifies this
      ensures Stepped(response, maxWrite, answer, total, ok, sum, old(Now()), Now())
    {
      hide Left, Rank, Rest, After, Stepped, React, Flatten, VectorCall, CallFor, Sent;
      ghost var before := Now();
      TwoBuffers(out, response.body);
      ok, sum := Writev([out, response.body], answer, total);
      ghost var m, call := Now(), VectorCall(|Data(response, before.at)| - before.at.outp, maxWrite, total);
      SameButCursor(Data(response, before.at), Stop(response, before.at), call, answer, total, ok, sum, before, m);
      if ok && outp == |out| + |response.body| {
        state := RequestCompleted;
      }
      StepDone(response, maxWrite, answer, total, ok, sum, call, before, m, Now());
    }

    method SendHeaders(answer: Answer, total: nat) returns (ok: bool, sum: nat)
      requires Valid() && state.SendingHeaders?
      modifies this
      ensures Stepped(response, maxWrite, answer, total, ok, sum, old(Now()), Now())
    {
      hide Left, Rank, Rest, After, Stepped, React, CallFor, Sent;
      ghost var before := Now();
      ok, sum := Write(answer, total);
      ghost var m, call := Now(), CallFor(|before.at.out| - before.at.outp, maxWrite, total, false);
      SameButCursor(before.at.out, |before.at.out|, call, answer, total, ok, sum, before, m);
      if ok && outp == |out| {
        if response.head {
          state := RequestCompleted;
        } else if response.failed {
          state := RequestCompleted;
        } else if response.filesize == 0 {
          state := RequestCompleted;
        } else {
          outp := if |response.ranges| == 0 then 0 else response.ranges[0].from;
          state := SendingBody;
        }
      }
      StepDone(response, maxWrite, answer, total, ok, sum, call, before, m, Now());
    }

    method SendBody(answer: Answer, total: nat) returns (ok: bool, sum: nat)
      requires Valid() && state.SendingBody? && (maxWrite > 0 ==> total <= maxWrite)
      modifies this
      ensures Stepped(response, maxWrite, answer, total, ok, sum, old(Now()), Now())
    {
      hide Left, Rank, Rest, After, Stepped, React, CallFor, Sent;
      ghost var before := Now();
      ok, sum := Sendfile(response.ranges, nrange, answer, total);
      ghost var m, stop := Now(), Stop(response, before.at);
      ghost var call := CallFor(stop - before.at.outp, maxWrite, total, true);
      SameButCursor(response.file, stop, call, answer, total, ok, sum, before, m);
      if ok {
        FinishRange();
      }
      StepDone(response, maxWrite, answer, total, ok, sum, call, before, m, Now());
    }

    /** At the end of the file, or of a range, goes on to the next part, the footer, or the end. */
    method FinishRange()
      requires Valid() && state.SendingBody?
      modifies this`state, this`out, this`outp, this`nrange
      ensures At() == old(if outp == Stop(response, At()) then Next(response, At()) else At())
    {
      hide M.PartHeader, M.Footer;
      var nranges := |response.ranges|;
      if nranges == 0 {
        if outp == response.filesize {
          state := RequestCompleted;
        }
      } else if outp == response.ranges[nrange].to + 1 {
        if nranges == 1 {
          state := RequestCompleted;
        } else {
          out := [];
          nrange := nrange + 1;
          if nrange == nranges {
            out := out + M.Footer(response.boundary);
            state := SendingMultipartFooter;
          } else {
            out := out + M.PartHeader(response.boundary, response.mime, response.ranges[nrange], response.filesize);
            state := SendingPartHeader;
          }
          outp := 0;
        }
      }
    }

    method SendPartHeader(answer: Answer, total: nat) returns (ok: bool, sum: nat)
      requires Valid() && state.SendingPartHeader? && (maxWrite > 0 ==> total <= maxWrite)
      modifies this
      ensures Stepped(response, maxWrite, answer, total, ok, sum, old(Now()), Now())
    {
      hide Left, Rank, Rest, After, Stepped, React, CallFor, Sent;
      ghost var before := Now();
      ok, sum := Write(answer, total);
      ghost var m, call := Now(), CallFor(|before.at.out| - before.at.outp, maxWrite, total, false);
      SameButCursor(before.at.out, |before.at.out|, call, answer, total, ok, sum, before, m);
      if ok && outp == |out| {
        outp := response.ranges[nrange].from;
        state := SendingBody;
      }
      StepDone(response, maxWrite, answer, total, ok, sum, call, before, m, Now());
    }

    method SendFooter(answer: Answer, total: nat) returns (ok: bool, sum: nat)
      requires Valid() && state.SendingMultipartFooter? && (maxWrite > 0 ==> total <= maxWrite)
      modifies this
      ensures Stepped(response, maxWrite, answer, total, ok, sum, old(Now()), Now())
    {
      hide Left, Rank, Rest, After, Stepped, React, CallFor, Sent;
      ghost var before := Now();
      ok, sum := Write(answer, total);
      ghost var m, call := Now(), CallFor(|before.at.out| - before.at.outp, maxWrite, total, false);
      SameButCursor(before.at.out, |before.at.out|, call, answer, total, ok, sum, before, m);
      if ok && outp == |out| {
        state := RequestCompleted;
      }
      StepDone(response, maxWrite, answer, total, ok, sum, call, before, m, Now());
    }

    /** The headers of a backend's response, alone or together with a payload kept in memory. */
    method SendBackendHeaders(answer: Answer, total: nat) returns (ok: bool, sum: nat)
      requires Valid() && state.SendingBackendHeaders? && (maxWrite > 0 ==> total <= maxWrite)
      modifies this
      ensures Stepped(response, maxWrite, answer, total, ok, sum, old(Now()), Now())
    {
      hide Left, Rank, Rest, After, Stepped, React, Flatten, VectorCall, CallFor, Sent;
      ghost var before := Now();
      var count: nat;
      ghost var call: Call;
      if !response.payloadInMemory || response.filesize == 0 || response.head {
        count := |out|;
        assert before.at.out + [] == before.at.out;
        call := CallFor(count - before.at.outp, maxWrite, total, false);
        ok, sum := Write(answer, total);
      } else {
        var payload := response.body[..response.filesize];
        count := |out| + |payload|;
        TwoBuffers(out, payload);
        call := VectorCall(count - before.at.outp, maxWrite, total);
        ok, sum := Writev([out, payload], answer, total);
      }
      ghost var m := Now();
      SameButCursor(Data(response, before.at), count, call, answer, total, ok, sum, before, m);
      if ok && outp == count {
        if response.payloadInMemory {
          state := RequestCompleted;
        } else {
          outp := 0;
          state := SendingBackendBody;
        }
      }
      StepDone(response, maxWrite, answer, total, ok, sum, call, before, m, Now());
    }

    method SendBackendBody(answer: Answer, total: nat) returns (ok: bool, sum: nat)
      requires Valid() && state.SendingBackendBody? && (maxWrite > 0 ==> total <= maxWrite)
      modifies this
      ensures Stepped(response, maxWrite, answer, total, ok, sum, old(Now()), Now())
    {
      hide Left, Rank, Rest, After, Stepped, React, CallFor, Sent;
      ghost var before := Now();
      ok, sum := Sendfile([], 0, answer, total);
      ghost var m, stop := Now(), Stop(response, before.at);
      ghost var call := CallFor(stop - before.at.outp, maxWrite, total, true);
      SameButCursor(response.file, stop, call, answer, total, ok, sum, before, m);
      if ok && outp == response.filesize {
        state := RequestCompleted;
      }
      StepDone(response, maxWrite, answer, total, ok, sum, call, before, m, Now());
    }

    /** One pass of the loop with something to send. */
    method Step(answer: Answer, total: nat) returns (ok: bool, sum: nat)
      requires Valid() && !state.RequestCompleted? && InCount(response, At(), maxWrite, total)
      modifies this
      ensures Stepped(response, maxWrite, answer, total, ok, sum, old(Now()), Now())
    {
      hide Responses.Valid, Stepped, OfPage, InCount, Left, Rest;
      InQuota(response, At(), maxWrite, total);
      match state {
        case SendingTwoBuffers => ok, sum := SendTwoBuffers(answer, total);
        case SendingHeaders => ok, sum := SendHeaders(answer, total);
        case SendingBody => ok, sum := SendBody(answer, total);
        case SendingPartHeader => ok, sum := SendPartHeader(answer, total);
        case SendingMultipartFooter => ok, sum := SendFooter(answer, total);
        case SendingBackendHeaders => ok, sum := SendBackendHeaders(answer, total);
        case SendingBackendBody => ok, sum := SendBackendBody(answer, total);
      }
    }

    /**
     * The loop of one round, looked at after so many system calls: it calls the system until the socket is full, the
     * connection is put back in the ready list, or the response is complete. If no socket takes zero bytes of a call
     * for more, it ends by itself; a file that has become shorter answers so, and then nothing ever changes.
     */
    method Loop(answers: nat -> Answer, calls: nat, carried: nat) returns (ok: bool)
      requires Valid() && InCount(response, At(), maxWrite, carried)
      modifies this
      ensures Valid() && Whole() == old(Whole()) && old(wire) <= wire
      ensures maxWrite > 0 && carried <= maxWrite ==> carried + (|wire| - |old(wire)|) <= maxWrite
      ensures (forall i :: answers(i).Accepted? ==> answers(i).n > 0) && calls > old(Left(response, At())) && ok
              ==> state.RequestCompleted? || !writable || inReadyList
      ensures Left(response, At()) <= old(Left(response, At()))
      ensures old(state.RequestCompleted?) ==> state.RequestCompleted?
      ensures ok && old(writable && !state.RequestCompleted?) && calls > 0 && (maxWrite > 0 ==> carried < maxWrite)
              && answers(0).Accepted? && answers(0).n > 0
              ==> Left(response, At()) < old(Left(response, At()))
      ensures old(writable && !inReadyList && Wants(response, At())) && (maxWrite > 0 ==> carried < maxWrite)
              && (forall i :: answers(i) == Accepted(0))
              ==> ok && Now() == old(Now())
    {
      hide Responses.Valid, Rest, Left, Rank, OfPage, Wants;
      ok := true;
      var total, made := carried, 0;
      while ok && !state.RequestCompleted? && writable && made < calls
        invariant made <= calls && Valid() && Whole() == old(Whole()) && old(wire) <= wire
        invariant ok ==> total == carried + (|wire| - |old(wire)|)
        invariant maxWrite > 0 && carried <= maxWrite ==> carried + (|wire| - |old(wire)|) <= maxWrite
        invariant ok ==> InCount(response, At(), maxWrite, total)
        invariant Left(response, At()) <= old(Left(response, At()))
        invariant made == 0 ==> Now() == old(Now()) && ok
        invariant old(state.RequestCompleted?) ==> made == 0
        invariant made > 0 && ok && (maxWrite > 0 ==> carried < maxWrite) && answers(0).Accepted? && answers(0).n > 0
                  ==> Left(response, At()) < old(Left(response, At()))
        invariant (forall i :: answers(i).Accepted? ==> answers(i).n > 0) && ok && writable
                  ==> Left(response, At()) + made <= old(Left(response, At()))
        invariant old(writable && !inReadyList && Wants(response, At())) && (maxWrite > 0 ==> carried < maxWrite)
                  && (forall i :: answers(i) == Accepted(0))
                  ==> ok && Now() == old(Now())
        decreases calls - made
      {
        ghost var before, sum := Now(), total;
        ok, total := Step(answers(made), total);
        CountGoesOn(response, maxWrite, answers(made), sum, ok, total, before, Now());
        made := made + 1;
        if inReadyList {
          break;
        }
      }
    }

    /**
     * Any number of rounds, each with its own answers and number of calls; a round comes because the socket has
     * become writable, or because the ready list has. What is on the wire is always a prefix of the response and the
     * request is complete only when it is all of it; if the socket wakes up and takes something in every round, the
     * response is complete after at most one round more than it has bytes and states. Only the first round may begin
     * with a count of bytes that have been read.
     */
    method Serve(
      rounds: nat, wakes: nat -> bool, calls: nat -> nat, answers: nat -> nat -> Answer, carried: nat)
      returns (ok: bool)
      requires Valid() && InCount(response, At(), maxWrite, carried)
      modifies this
      ensures Valid() && Whole() == old(Whole()) && old(wire) <= wire <= old(Whole())
      ensures state.RequestCompleted? ==> wire == old(Whole())
      ensures ok && rounds > old(Left(response, At()))
              && (forall k :: wakes(k) && calls(k) > 0 && answers(k)(0).Accepted? && answers(k)(0).n > 0)
              ==> state.RequestCompleted?
    {
      hide Responses.Valid, Rest, Left, Rank, OfPage;
      ok := true;
      var k, total := 0, carried;
      while ok && k < rounds
        invariant Valid() && Whole() == old(Whole()) && old(wire) <= wire && k <= rounds
        invariant (k == 0 ==> total == carried && At() == old(At())) && (k > 0 ==> total == 0)
        invariant ok && (forall j :: wakes(j) && calls(j) > 0 && answers(j)(0).Accepted? && answers(j)(0).n > 0)
                  ==> state.RequestCompleted?
                      || Left(response, At()) + (if k == 0 then 0 else k - 1) <= old(Left(response, At()))
        decreases rounds - k, ok
      {
        if wakes(k) {
          writable := true;
        } else {
          inReadyList := false;
        }
        ok := Loop(answers(k), calls(k), total);
        k, total := k + 1, 0;
      }
      Owed(response, At());
    }
  }

  lemma CountGoesOn(
    r: Response, maxWrite: SizeT, answer: Answer, total: nat, ok: bool, sum: nat, before: Moment, after: Moment)
    requires Responses.Valid(r, before.at) && Stepped(r, maxWrite, answer, total, ok, sum, before, after)
    requires InCount(r, before.at, maxWrite, total)
    ensures ok ==> InCount(r, after.at, maxWrite, sum)
  {
    hide OfPage, Left, Rest, Wants, Responses.Valid;
  }

  /** A file sent from the start: its header block and content, for every quota and every socket, at any moment. */
  method DeliverFile(
    r: Response, header: bytes, maxWrite: SizeT, rounds: nat, wakes: nat -> bool, calls: nat -> nat,
    answers: nat -> nat -> Answer)
    returns (connection: Connection)
    requires M.Within(r.ranges, |r.file|) && (r.ranges == [] ==> r.filesize <= |r.file|) && SendsFile(r)
    ensures connection.wire <= header + Content(r)
    ensures connection.state.RequestCompleted? ==> connection.wire == header + Content(r)
    ensures connection.state.RequestCompleted? && |r.ranges| >= 2 && CR !in r.mime ==>
              |header| <= |connection.wire| && GivesParts(r, connection.wire[|header|..])
  {
    hide *;
    FileResponse(r, header);
    var start := Start(r, header);
    assert start == Point(SendingHeaders, header + Opening(r), 0, 0) by {
      StartsInBuffer(r, header);
    }
    connection := new Connection(r, maxWrite, SendingHeaders, header + Opening(r));
    StartsFresh(connection);
    assert InCount(r, connection.At(), maxWrite, 0) by {
      CountsFromZero(r, connection.At(), maxWrite);
    }
    var ok := connection.Serve(rounds, wakes, calls, answers, 0);
    if connection.state.RequestCompleted? && |r.ranges| >= 2 && CR !in r.mime {
      Behind(header, Content(r));
      ContentGivesParts(r);
    }
  }

  /** A client can read the parts of a multipart response: each range that was asked for, with its bytes of the file. */
  predicate GivesParts(r: Response, content: bytes)
    requires M.Within(r.ranges, |r.file|)
  {
    MultipartReading.ReadParts(content)
    == MultipartReading.Ended(M.Padded(r.boundary, 11),
                              MultipartReading.PartsOf(r.boundary, r.mime, r.file, r.ranges, r.filesize))
  }

  lemma ContentGivesParts(r: Response)
    requires M.Within(r.ranges, |r.file|) && |r.ranges| >= 2 && CR !in r.mime
    ensures GivesParts(r, Content(r))
  {
    hide MultipartReading.ReadParts, MultipartReading.PartsOf, M.Body, M.Padded;
    MultipartReading.BodyRead(r.boundary, r.mime, r.file, r.ranges, r.filesize);
  }

  lemma Behind(a: bytes, b: bytes)
    ensures |a| <= |a + b| && (a + b)[|a|..] == b
  {
  }

  lemma CountsFromZero(r: Response, p: Point, maxWrite: SizeT)
    ensures InCount(r, p, maxWrite, 0)
  {
  }

  lemma StartsInBuffer(r: Response, header: bytes)
    ensures Start(r, header) == Point(SendingHeaders, header + Opening(r), 0, 0)
  {
    hide Opening;
  }

  lemma StartsFresh(connection: Connection)
    requires connection.Valid() && connection.wire == []
    ensures connection.Whole() == Rest(connection.response, connection.At())
  {
    hide Rest;
  }

  /** After a kept connection's response, the bytes read beyond the request move to the front of the input. */
  method KeepPipelined(input: Buffer, inp: nat)
    requires input.Valid() && inp <= input.used
    modifies input`used, input.data
    ensures input.Valid() && input.Contents() == old(input.Contents()[inp..])
  {
    var left := input.used - inp;
    if left > 0 {
      MoveToFront(input.data, inp, left);
    }
    input.used := left;
  }
}

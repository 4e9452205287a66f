/** Byte ranges of a file, the multipart body they make, and the length announced for it. */
module Multipart {
  import opened Bytes
  import opened Numbers

  /** The bytes `from` to `to` of a file, both included. */
  datatype Range = Range(from: nat, to: nat)

  const BOUNDARY_WIDTH: nat := 11

  /** A number printed with leading zeros. */
  function Padded(n: nat, width: nat): (r: bytes)
    ensures |r| == if |Decimal(n)| < width then width else |Decimal(n)|
  {
    if |Decimal(n)| < width then seq(width - |Decimal(n)|, _ => 0x30) + Decimal(n) else Decimal(n)
  }

  predicate Within(ranges: seq<Range>, size: nat) {
    forall i :: 0 <= i < |ranges| ==> ranges[i].from <= ranges[i].to < size
  }

  function Slice(file: bytes, range: Range): (r: bytes)
    requires range.from <= range.to < |file|
    ensures |r| == range.to - range.from + 1
  {
    file[range.from..range.to + 1]
  }

  function PartHeader(boundary: nat, mime: bytes, range: Range, total: nat): bytes {
    Ascii("\r\n--") + Padded(boundary, BOUNDARY_WIDTH) + Ascii("\r\nContent-Type: ") + mime
    + Ascii("\r\nContent-Range: bytes ") + Decimal(range.from) + Ascii("-") + Decimal(range.to)
    + Ascii("/") + Decimal(total) + Ascii("\r\n\r\n")
  }

  function Footer(boundary: nat): bytes {
    Ascii("\r\n--") + Padded(boundary, BOUNDARY_WIDTH) + Ascii("--\r\n")
  }

  /** A `multipart/byteranges` body: every range under its own header, then the closing delimiter. */
  function Body(boundary: nat, mime: bytes, file: bytes, ranges: seq<Range>, total: nat): bytes
    requires Within(ranges, |file|)
  {
    if ranges == [] then Footer(boundary)
    else PartHeader(boundary, mime, ranges[0], total) + Slice(file, ranges[0])
         + Body(boundary, mime, file, ranges[1..], total)
  }

  /** How long the body is when the total in every part header has `width` digits. */
  function BodyLength(ranges: seq<Range>, mimeLength: nat, width: nat): nat
    requires forall r <- ranges :: r.from <= r.to
  {
    if ranges == [] then 8 + BOUNDARY_WIDTH
    else PartLength(ranges[0], mimeLength, width) + BodyLength(ranges[1..], mimeLength, width)
  }

  function PartLength(range: Range, mimeLength: nat, width: nat): nat
    requires range.from <= range.to
  {
    49 + BOUNDARY_WIDTH + mimeLength + |Decimal(range.from)| + |Decimal(range.to)| + width
    + (range.to - range.from + 1)
  }

  lemma {:induction false} BodyHasLength(boundary: nat, mime: bytes, file: bytes, ranges: seq<Range>, total: nat)
    requires Within(ranges, |file|) && boundary < 0x1_0000_0000
    ensures |Body(boundary, mime, file, ranges, total)| == BodyLength(ranges, |mime|, |Decimal(total)|)
  {
    hide Decimal, Ascii, Padded;
    BoundaryFits(boundary);
    if ranges != [] {
      assert |PartHeader(boundary, mime, ranges[0], total)| + |Slice(file, ranges[0])|
             == PartLength(ranges[0], |mime|, |Decimal(total)|);
      BodyHasLength(boundary, mime, file, ranges[1..], total);
    }
  }

  lemma BoundaryFits(boundary: nat)
    requires boundary < 0x1_0000_0000
    ensures |Padded(boundary, BOUNDARY_WIDTH)| == BOUNDARY_WIDTH
  {
    hide Decimal;
    assert Power10(5) == 100_000;
    assert Power10(10) == 100_000 * Power10(5);
    DecimalWidth(boundary, 10);
  }

  lemma {:induction false} WidthCounts(ranges: seq<Range>, mimeLength: nat, width: nat, other: nat)
    requires forall r <- ranges :: r.from <= r.to
    ensures BodyLength(ranges, mimeLength, width) - BodyLength(ranges, mimeLength, other) == |ranges| * (width - other)
  {
    hide Decimal;
    if ranges != [] {
      WidthCounts(ranges[1..], mimeLength, width, other);
      OneMore(|ranges[1..]|, width - other);
    }
  }

  lemma OneMore(n: int, d: int)
    ensures (n + 1) * d == n * d + d
  {
  }

  /** The length of a part as it is counted. */
  function CountedPart(range: Range, mimeLength: nat, width: nat): nat
    requires range.from <= range.to
  {
    49 + BOUNDARY_WIDTH + mimeLength + Counted(range.from) + Counted(range.to) + width + (range.to - range.from + 1)
  }

  function CountedLength(ranges: seq<Range>, mimeLength: nat, width: nat): nat
    requires forall r <- ranges :: r.from <= r.to
  {
    if ranges == [] then 8 + BOUNDARY_WIDTH
    else CountedPart(ranges[0], mimeLength, width) + CountedLength(ranges[1..], mimeLength, width)
  }

  /** Below 10^18 bytes every width is counted as it is. */
  lemma {:induction false} CountedIsExact(ranges: seq<Range>, mimeLength: nat, width: nat, filesize: nat)
    requires Within(ranges, filesize) && filesize < LIMIT
    ensures CountedLength(ranges, mimeLength, width) == BodyLength(ranges, mimeLength, width)
  {
    hide Decimal;
    if ranges != [] {
      CountedIsExact(ranges[1..], mimeLength, width, filesize);
    }
  }

  /**
   * The announced length: for several ranges that of the body with every number as wide as it is counted, which
   * below 10^18 bytes is the body's own when the total is as wide as the size of the file.
   */
  method ContentLength(ranges: seq<Range>, mimeLength: nat, filesize: nat) returns (length: int)
    requires Within(ranges, filesize) && filesize < OFF_T / 2
    ensures |ranges| == 0 ==> length == filesize
    ensures |ranges| == 1 ==> length == ranges[0].to - ranges[0].from + 1
    ensures |ranges| >= 2 ==> length == Wrap(CountedLength(ranges, mimeLength, Counted(filesize)))
    ensures |ranges| >= 2 && filesize < LIMIT ==> length == Wrap(BodyLength(ranges, mimeLength, |Decimal(filesize)|))
  {
    hide Decimal, Wrap;
    if |ranges| == 0 {
      return filesize;
    }
    if |ranges| == 1 {
      return ranges[0].to - ranges[0].from + 1;
    }
    length := 0;
    ghost var exact := 0;
    var sizelen := Length(filesize);
    for i := 0 to |ranges|
      invariant length == Wrap(exact)
      invariant exact + CountedLength(ranges[i..], mimeLength, sizelen) == CountedLength(ranges, mimeLength, sizelen)
    {
      var fromlen := Length(ranges[i].from);
      var tolen := Length(ranges[i].to);
      var header :=
        2 + 2 + BOUNDARY_WIDTH + 2 + 14 + mimeLength + 2 + 21 + fromlen + 1 + tolen + 1 + sizelen + 2 + 2;
      WrapAdd(exact, header);
      length := Wrap(length + header);
      WrapAdd(exact + header, ranges[i].to - ranges[i].from + 1);
      length := Wrap(length + (ranges[i].to - ranges[i].from + 1));
      exact := exact + CountedPart(ranges[i], mimeLength, sizelen);
      assert ranges[i..][1..] == ranges[i + 1..];
    }
    WrapAdd(exact, 8 + BOUNDARY_WIDTH);
    length := Wrap(length + (2 + 2 + BOUNDARY_WIDTH + 2 + 2));
    if filesize < LIMIT {
      CountedIsExact(ranges, mimeLength, sizelen, filesize);
    }
  }

  lemma WrapAdd(a: int, b: int)
    ensures Wrap(Wrap(a) + b) == Wrap(a + b)
  {
    var k := (a + OFF_T / 2) / OFF_T;
    assert Wrap(a) == a - k * OFF_T;
    assert a + b + OFF_T / 2 == (Wrap(a) + b + OFF_T / 2) + k * OFF_T;
    Shift(Wrap(a) + b + OFF_T / 2, k);
  }

  lemma Shift(n: int, k: int)
    ensures (n + k * OFF_T) % OFF_T == n % OFF_T
  {
    var q := n / OFF_T;
    assert n + k * OFF_T == (q + k) * OFF_T + n % OFF_T;
  }

  /** The digits that are not counted of the numbers in the part headers: none below 10^18. */
  function Excess(ranges: seq<Range>): int {
    if ranges == [] then 0
    else |Decimal(ranges[0].from)| - Counted(ranges[0].from) + (|Decimal(ranges[0].to)| - Counted(ranges[0].to))
         + Excess(ranges[1..])
  }

  lemma {:induction false} ExcessCounts(ranges: seq<Range>, mimeLength: nat, width: nat)
    requires forall r <- ranges :: r.from <= r.to
    ensures BodyLength(ranges, mimeLength, width) == CountedLength(ranges, mimeLength, width) + Excess(ranges)
  {
    hide Decimal, Counted;
    if ranges != [] {
      ExcessCounts(ranges[1..], mimeLength, width);
    }
  }

  /**
   * A response of several parts is exactly as long as announced if and only if the digits that are missing from the
   * announced length, which is what the part headers print as the total, make up for those that are not counted.
   * Below 10^18 bytes that is: if and only if it has as many digits as the size of the file.
   */
  lemma AnnouncedIffSameWidth(boundary: nat, mime: bytes, file: bytes, ranges: seq<Range>)
    requires Within(ranges, |file|) && boundary < 0x1_0000_0000 && |ranges| >= 2
    ensures var length := CountedLength(ranges, |mime|, Counted(|file|));
            && (|Body(boundary, mime, file, ranges, length)| == length
                <==> Excess(ranges) == |ranges| * (Counted(|file|) - |Decimal(length)|))
            && (|file| < LIMIT ==>
                  && length == BodyLength(ranges, |mime|, |Decimal(|file|)|)
                  && (|Body(boundary, mime, file, ranges, length)| == length <==> |Decimal(length)| == |Decimal(|file|)|))
  {
    hide Decimal, Body, BodyLength, CountedLength, Excess;
    var width := Counted(|file|);
    var length := CountedLength(ranges, |mime|, width);
    BodyHasLength(boundary, mime, file, ranges, length);
    ExcessCounts(ranges, |mime|, width);
    WidthCounts(ranges, |mime|, |Decimal(length)|, width);
    Opposite(|ranges|, |Decimal(length)|, width);
    if |file| < LIMIT {
      CountedIsExact(ranges, |mime|, width, |file|);
      WiderIsLonger(ranges, |mime|, |Decimal(length)|, |Decimal(|file|)|);
    }
  }

  lemma Opposite(n: int, a: int, b: int)
    ensures n * (a - b) == -(n * (b - a))
  {
  }

  /** So no response of several parts of a file shorter than 100 bytes has the length it announces. */
  lemma ShortFilesAnnounceTooLittle(boundary: nat, mime: bytes, file: bytes, ranges: seq<Range>)
    requires Within(ranges, |file|) && boundary < 0x1_0000_0000 && |ranges| >= 2 && |file| < 100
    ensures var length := BodyLength(ranges, |mime|, |Decimal(|file|)|);
            |Body(boundary, mime, file, ranges, length)| > length
  {
    hide Decimal, PartLength;
    var length := BodyLength(ranges, |mime|, |Decimal(|file|)|);
    assert Power10(2) == 100;
    DecimalWidth(|file|, 2);
    TwoPartsAreLong(ranges, |mime|, |Decimal(|file|)|);
    DecimalWidth(length, 2);
    BodyHasLength(boundary, mime, file, ranges, length);
    WiderIsLonger(ranges, |mime|, |Decimal(length)|, |Decimal(|file|)|);
  }

  /** For example, two one-byte ranges of a nine-byte text announce 167 bytes and send 171. */
  lemma NineByteText(boundary: nat, file: bytes)
    requires |file| == 9 && boundary < 0x1_0000_0000
    ensures var ranges, mime := [Range(0, 0), Range(4, 4)], Ascii("text/plain");
            && Within(ranges, |file|)
            && BodyLength(ranges, |mime|, |Decimal(|file|)|) == 167
            && |Body(boundary, mime, file, ranges, 167)| == 171
  {
    var ranges, mime := [Range(0, 0), Range(4, 4)], Ascii("text/plain");
    assert |Decimal(0)| == |Decimal(4)| == |Decimal(9)| == 1;
    assert Decimal(167) == Decimal(16) + [0x37] && Decimal(16) == Decimal(1) + [0x36];
    assert ranges[1..] == [Range(4, 4)] && ranges[1..][1..] == [];
    hide Decimal;
    assert BodyLength(ranges[1..][1..], 10, 1) == BodyLength(ranges[1..][1..], 10, 3) == 19;
    BodyHasLength(boundary, mime, file, ranges, 167);
  }

  lemma WiderIsLonger(ranges: seq<Range>, mimeLength: nat, width: nat, other: nat)
    requires forall r <- ranges :: r.from <= r.to
    requires ranges != []
    ensures width > other ==> BodyLength(ranges, mimeLength, width) > BodyLength(ranges, mimeLength, other)
    ensures width < other ==> BodyLength(ranges, mimeLength, width) < BodyLength(ranges, mimeLength, other)
  {
    hide BodyLength;
    WidthCounts(ranges, mimeLength, width, other);
    assert width > other ==> |ranges| * (width - other) > 0;
    assert width < other ==> |ranges| * (width - other) < 0;
  }

  lemma TwoPartsAreLong(ranges: seq<Range>, mimeLength: nat, width: nat)
    requires |ranges| >= 2 && forall r <- ranges :: r.from <= r.to
    ensures BodyLength(ranges, mimeLength, width) > 100
  {
    hide Decimal;
    assert BodyLength(ranges[1..], mimeLength, width)
           == PartLength(ranges[1], mimeLength, width) + BodyLength(ranges[1..][1..], mimeLength, width);
  }
}

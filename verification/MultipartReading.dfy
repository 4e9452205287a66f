/** What a client can read from a multipart body: the parts one after the other, and where they end. */
module MultipartReading {
  import opened Bytes
  import opened Numbers
  import opened Sequences
  import opened Multipart
  import RangeLists
  import RangeParser

  function UpTo(s: bytes, stop: byte): (r: bytes)
    ensures |r| <= |s|
  {
    if s == [] || s[0] == stop then [] else [s[0]] + UpTo(s[1..], stop)
  }

  /** A value behind a tag, up to a character. */
  datatype Field = NoField | Field(value: bytes, rest: bytes)

  function Read(s: bytes, tag: bytes, stop: byte): (f: Field)
    ensures f.Field? ==> |f.rest| + |tag| <= |s|
  {
    if tag <= s then
      var value := UpTo(s[|tag|..], stop);
      Field(value, s[|tag| + |value|..])
    else NoField
  }

  const DELIMITER: bytes := Ascii("\r\n--")
  const TYPE: bytes := Ascii("\r\nContent-Type: ")
  const RANGE: bytes := Ascii("\r\nContent-Range: bytes ")
  const BLANK_LINE: bytes := Ascii("\r\n\r\n")

  /** A part as it is read: its boundary and media type, the range it claims to be, the total, and its bytes. */
  datatype Part = Part(boundary: bytes, mime: bytes, from: int, to: int, total: int, data: bytes)

  datatype Parts = Malformed | Ended(boundary: bytes, parts: seq<Part>)

  function Prepend(part: Part, parts: Parts): Parts {
    match parts
    case Malformed => Malformed
    case Ended(boundary, ps) => Ended(boundary, [part] + ps)
  }

  /** Reads parts until the closing delimiter, the boundary of which has two hyphens behind it. */
  function ReadParts(s: bytes): Parts
    decreases |s|
  {
    match Read(s, DELIMITER, CR)
    case NoField => Malformed
    case Field(boundary, s1) =>
      if MINUS in boundary then
        if |boundary| >= 2 && boundary[|boundary| - 2..] == Ascii("--") && s1 == Ascii("\r\n") then
          Ended(boundary[..|boundary| - 2], [])
        else Malformed
      else
        match Read(s1, TYPE, CR)
        case NoField => Malformed
        case Field(mime, s2) =>
          match Read(s2, RANGE, MINUS)
          case NoField => Malformed
          case Field(from, s3) =>
            match Read(s3, [MINUS], SLASH)
            case NoField => Malformed
            case Field(to, s4) =>
              match Read(s4, [SLASH], CR)
              case NoField => Malformed
              case Field(total, s5) =>
                var n := NumberOf(to) - NumberOf(from) + 1;
                if BLANK_LINE <= s5 && 0 <= n <= |s5| - 4 then
                  Prepend(Part(boundary, mime, NumberOf(from), NumberOf(to), NumberOf(total), s5[4..4 + n]),
                          ReadParts(s5[4 + n..]))
                else Malformed
  }

  lemma {:induction false} UpToIs(value: bytes, stop: byte, rest: bytes)
    requires stop !in value
    ensures UpTo(value + [stop] + rest, stop) == value
  {
    if value == [] {
      assert value + [stop] + rest == [stop] + rest;
    } else {
      assert (value + [stop] + rest)[1..] == value[1..] + [stop] + rest;
      UpToIs(value[1..], stop, rest);
    }
  }

  lemma FieldRead(s: bytes, tag: bytes, value: bytes, stop: byte, rest: bytes)
    requires stop !in value && rest != [] && rest[0] == stop && s == tag + (value + rest)
    ensures Read(s, tag, stop) == Field(value, rest)
  {
    assert s[|tag|..] == value + rest == value + [stop] + rest[1..];
    UpToIs(value, stop, rest[1..]);
    assert s[|tag| + |value|..] == rest;
  }

  /** Leading zeros change no number. */
  lemma {:induction false} NumberOfPadded(n: nat, width: nat)
    ensures NumberOf(Padded(n, width)) == n && (forall i :: 0 <= i < |Padded(n, width)| ==> IsDigit(Padded(n, width)[i]))
  {
    var d := Decimal(n);
    if |d| < width {
      var zeros := seq(width - |d|, _ => 0x30);
      assert Padded(n, width) == zeros + d;
      ZerosBefore(zeros, d);
    }
    NumberOfDecimal(n);
  }

  lemma {:induction false} ZerosBefore(zeros: bytes, d: bytes)
    requires forall i :: 0 <= i < |zeros| ==> zeros[i] as char == '0'
    ensures NumberOf(zeros + d) == NumberOf(d)
    decreases |zeros| + |d|
  {
    if d == [] {
      assert zeros + d == zeros;
      if zeros != [] {
        ZerosBefore(zeros[..|zeros| - 1], []);
        assert zeros[..|zeros| - 1] + [] == zeros[..|zeros| - 1];
      }
    } else {
      assert (zeros + d)[..|zeros| + |d| - 1] == zeros + d[..|d| - 1];
      ZerosBefore(zeros, d[..|d| - 1]);
    }
  }

  lemma OnlyDigits(n: nat, width: nat, c: byte)
    requires !IsDigit(c)
    ensures c !in Decimal(n) && c !in Padded(n, width)
  {
    hide Decimal;
    NumberOfPadded(n, width);
  }

  /** The pieces of a part header, and what follows it. */
  lemma HeaderPieces(boundary: nat, mime: bytes, range: Range, total: nat, rest: bytes)
    ensures PartHeader(boundary, mime, range, total) + rest
            == DELIMITER + (Padded(boundary, 11) + (TYPE + (mime + (RANGE + (Decimal(range.from) + ([MINUS]
               + (Decimal(range.to) + ([SLASH] + (Decimal(total) + (BLANK_LINE + rest))))))))))
  {
    assert Ascii("-") == [MINUS] && Ascii("/") == [SLASH];
    assert PartHeader(boundary, mime, range, total)
           == DELIMITER + Padded(boundary, 11) + TYPE + mime + RANGE + Decimal(range.from) + [MINUS] + Decimal(range.to)
              + [SLASH] + Decimal(total) + BLANK_LINE;
    hide Decimal, Padded, Ascii, PartHeader, DELIMITER, TYPE, RANGE, BLANK_LINE;
    var p1, p2, p3, p4, p5 := DELIMITER, Padded(boundary, 11), TYPE, mime, RANGE;
    var p6, p7, p8, p9, p10, p11 := Decimal(range.from), [MINUS], Decimal(range.to), [SLASH], Decimal(total), BLANK_LINE;
    var r10, r9 := p11 + rest, p10 + (p11 + rest);
    var r8 := p9 + r9;
    var r7 := p8 + r8;
    var r6 := p7 + r7;
    var r5 := p6 + r6;
    var r4 := p5 + r5;
    var r3 := p4 + r4;
    var r2 := p3 + r3;
    Associative(p1 + p2 + p3 + p4 + p5 + p6 + p7 + p8 + p9 + p10, p11, rest);
    Associative(p1 + p2 + p3 + p4 + p5 + p6 + p7 + p8 + p9, p10, r10);
    Associative(p1 + p2 + p3 + p4 + p5 + p6 + p7 + p8, p9, r9);
    Associative(p1 + p2 + p3 + p4 + p5 + p6 + p7, p8, r8);
    Associative(p1 + p2 + p3 + p4 + p5 + p6, p7, r7);
    Associative(p1 + p2 + p3 + p4 + p5, p6, r6);
    Associative(p1 + p2 + p3 + p4, p5, r5);
    Associative(p1 + p2 + p3, p4, r4);
    Associative(p1 + p2, p3, r3);
    Associative(p1, p2, r2);
  }

  lemma LabelsBegin()
    ensures TYPE != [] && RANGE != [] && BLANK_LINE != [] && TYPE[0] == RANGE[0] == BLANK_LINE[0] == CR && |BLANK_LINE| == 4
  {
  }

  /** A part is read as the range that it is, with its bytes, and reading goes on behind them. */
  lemma PartRead(boundary: nat, mime: bytes, file: bytes, range: Range, total: nat, rest: bytes)
    requires CR !in mime && range.from <= range.to < |file|
    ensures ReadParts(PartHeader(boundary, mime, range, total) + Slice(file, range) + rest)
            == Prepend(Part(Padded(boundary, 11), mime, range.from, range.to, total, Slice(file, range)), ReadParts(rest))
  {
    hide Decimal, Padded, Ascii, PartHeader, Slice, DELIMITER, TYPE, RANGE, BLANK_LINE, Read;
    OnlyDigits(boundary, 11, CR);
    OnlyDigits(boundary, 11, MINUS);
    OnlyDigits(range.from, 0, MINUS);
    OnlyDigits(range.to, 0, SLASH);
    OnlyDigits(total, 0, CR);
    NumberOfDecimal(range.from);
    NumberOfDecimal(range.to);
    NumberOfDecimal(total);
    LabelsBegin();
    var data := Slice(file, range);
    var s := PartHeader(boundary, mime, range, total) + data + rest;
    Associative(PartHeader(boundary, mime, range, total), data, rest);
    HeaderPieces(boundary, mime, range, total, data + rest);
    var b, from, to, sum := Padded(boundary, 11), Decimal(range.from), Decimal(range.to), Decimal(total);
    var s5 := BLANK_LINE + (data + rest);
    var s4 := [SLASH] + (sum + s5);
    var s3 := [MINUS] + (to + s4);
    var s2 := RANGE + (from + s3);
    var s1 := TYPE + (mime + s2);
    FieldRead(s, DELIMITER, b, CR, s1);
    FieldRead(s1, TYPE, mime, CR, s2);
    FieldRead(s2, RANGE, from, MINUS, s3);
    FieldRead(s3, [MINUS], to, SLASH, s4);
    FieldRead(s4, [SLASH], sum, CR, s5);
    DataBehind(s5, data, rest);
  }

  lemma DataBehind(s: bytes, data: bytes, rest: bytes)
    requires s == BLANK_LINE + (data + rest)
    ensures BLANK_LINE <= s && |data| <= |s| - 4 && s[4..4 + |data|] == data && s[4 + |data|..] == rest
  {
  }

  lemma FooterRead(boundary: nat)
    ensures ReadParts(Footer(boundary)) == Ended(Padded(boundary, 11), [])
  {
    var b, s := Padded(boundary, 11), Footer(boundary);
    OnlyDigits(boundary, 11, CR);
    var end := Ascii("\r\n");
    assert Ascii("--\r\n") == Ascii("--") + end && end[0] == CR && Ascii("--") == [MINUS, MINUS];
    hide Padded;
    assert s == DELIMITER + ((b + Ascii("--")) + end);
    FieldRead(s, DELIMITER, b + Ascii("--"), CR, end);
    assert (b + Ascii("--"))[|b|] == MINUS;
    assert (b + Ascii("--"))[..|b|] == b && (b + Ascii("--"))[|b|..] == Ascii("--");
  }

  /** The parts that a client should get. */
  function PartsOf(boundary: nat, mime: bytes, file: bytes, ranges: seq<Range>, total: nat): (ps: seq<Part>)
    requires Within(ranges, |file|)
    ensures |ps| == |ranges|
  {
    seq(|ranges|, i requires 0 <= i < |ranges| =>
      Part(Padded(boundary, 11), mime, ranges[i].from, ranges[i].to, total, file[ranges[i].from..ranges[i].to + 1]))
  }

  /**
   * Taken apart from front to back, a multipart body gives back its ranges in order, each with its first and last
   * byte, the total and its bytes of the file, and then ends.
   */
  lemma {:induction false} BodyRead(boundary: nat, mime: bytes, file: bytes, ranges: seq<Range>, total: nat)
    requires Within(ranges, |file|) && CR !in mime
    ensures ReadParts(Body(boundary, mime, file, ranges, total))
            == Ended(Padded(boundary, 11), PartsOf(boundary, mime, file, ranges, total))
    decreases |ranges|
  {
    hide Padded, PartHeader, Footer, ReadParts;
    if ranges == [] {
      FooterRead(boundary);
    } else {
      BodyRead(boundary, mime, file, ranges[1..], total);
      PartRead(boundary, mime, file, ranges[0], total, Body(boundary, mime, file, ranges[1..], total));
      assert PartsOf(boundary, mime, file, ranges, total)
             == [PartsOf(boundary, mime, file, ranges, total)[0]] + PartsOf(boundary, mime, file, ranges[1..], total);
    }
  }

  /** The range that a part claims to be is one that the range parser reads as that range. */
  lemma RangeTextRead(range: Range, filesize: nat)
    requires range.from <= range.to < filesize < OFF_T / 2
    ensures RangeParser.Run(RangeParser.INITIAL, filesize, Decimal(range.from) + [MINUS] + Decimal(range.to)).Read?
    ensures RangeParser.Run(RangeParser.INITIAL, filesize, Decimal(range.from) + [MINUS] + Decimal(range.to)).scan.ranges == [range]
  {
    hide RangeParser.Run, Decimal;
    var spec := RangeLists.FromTo(range.from, range.to);
    RangeLists.PrintedListRead(filesize, [spec]);
    assert RangeLists.PrintAll([spec]) == Decimal(range.from) + [MINUS] + Decimal(range.to);
    assert RangeLists.AllClamped([spec], filesize) == [range];
  }

  /** The boundary has eleven digits and is that of the response. */
  lemma BoundaryRead(boundary: nat)
    requires boundary < 0x1_0000_0000
    ensures |Padded(boundary, 11)| == 11 && NumberOf(Padded(boundary, 11)) == boundary
  {
    BoundaryFits(boundary);
    NumberOfPadded(boundary, 11);
  }
}

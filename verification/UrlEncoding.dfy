/** Percent-encoding, and the encoder that computes its size first and then writes into a buffer. */
module UrlEncoding {
  import opened Bytes
  import opened Buffers
  import opened Sequences

  predicate IsUnreserved(c: byte) {
    IsAlpha(c) || IsDigit(c) || c == MINUS || c == DOT || c == UNDERSCORE || c == TILDE
  }

  predicate IsLiteral(c: byte) {
    IsUnreserved(c) || c == SLASH
  }

  function LowerHex(n: nat): (c: byte)
    requires n < 16
    ensures HexValue(c) == n
  {
    if n < 10 then 0x30 + n else 0x61 + (n - 10)
  }

  function EncodeByte(c: byte): bytes {
    if IsLiteral(c) then [c] else [PERCENT, LowerHex(c / 16), LowerHex(c % 16)]
  }

  function Encode(s: bytes): bytes {
    if s == [] then [] else EncodeByte(s[0]) + Encode(s[1..])
  }

  /** Letters, digits and `-._~/` stay as they are; every other byte becomes an escape with lower-case digits. */
  lemma EncodeByteIs(c: byte)
    ensures EncodeByte(c) == [c] <==> 'A' <= c as char <= 'Z' || 'a' <= c as char <= 'z' || '0' <= c as char <= '9'
                                      || c as char in "-._~/"
    ensures EncodeByte(c) != [c] ==>
              && |EncodeByte(c)| == 3 && EncodeByte(c)[0] as char == '%'
              && EncodeByte(c)[1] as char == "0123456789abcdef"[c / 16]
              && EncodeByte(c)[2] as char == "0123456789abcdef"[c % 16]
  {
  }

  lemma EncodeFirst(s: bytes)
    requires s != []
    ensures Encode(s) == EncodeByte(s[0]) + Encode(s[1..])
  {
  }

  lemma {:induction false} EncodeSnoc(s: bytes, c: byte)
    ensures Encode(s + [c]) == Encode(s) + EncodeByte(c)
  {
    hide EncodeByte;
    if s == [] {
      assert s + [c] == [c] && Encode([c][1..]) == [];
    } else {
      assert (s + [c])[1..] == s[1..] + [c];
      EncodeFirst(s);
      EncodeFirst(s + [c]);
      hide Encode;
      EncodeSnoc(s[1..], c);
      Associative(EncodeByte(s[0]), Encode(s[1..]), EncodeByte(c));
    }
  }

  /** One turn of either loop of the encoder. */
  lemma {:induction false} EncodeStep(s: bytes, k: nat)
    requires k < |s|
    ensures Encode(s[..k + 1]) == Encode(s[..k]) + EncodeByte(s[k])
    ensures |Encode(s[..k + 1])| <= |Encode(s)|
    decreases |s| - k
  {
    EncodeSnoc(s[..k], s[k]);
    assert s[..k + 1] == s[..k] + [s[k]];
    if k + 1 < |s| {
      EncodeStep(s, k + 1);
    } else {
      assert s[..k + 1] == s;
    }
  }

  method Needed(url: bytes) returns (needed: nat)
    ensures needed == |Encode(url)|
  {
    needed := 0;
    var src := 0;
    while src < |url|
      invariant src <= |url| && needed == |Encode(url[..src])|
    {
      EncodeStep(url, src);
      needed := needed + if !IsUnreserved(url[src]) && url[src] != SLASH then 3 else 1;
      src := src + 1;
    }
    assert url[..src] == url;
  }

  method WriteByte(c: byte, data: array<byte>, dst: nat) returns (dst': nat)
    requires dst + |EncodeByte(c)| <= data.Length
    modifies data
    ensures dst' == dst + |EncodeByte(c)| && data[..dst'] == old(data[..dst]) + EncodeByte(c)
    ensures data[dst'..] == old(data[dst'..])
  {
    if !IsUnreserved(c) && c != SLASH {
      data[dst] := PERCENT;
      data[dst + 1] := LowerHex(c / 16);
      data[dst + 2] := LowerHex(c % 16);
      dst' := dst + 3;
    } else {
      data[dst] := c;
      dst' := dst + 1;
    }
  }

  /** Write the encoding at `start`, where there is room for exactly the bytes that were counted. */
  method WriteEncoded(url: bytes, data: array<byte>, start: nat, needed: nat)
    requires needed == |Encode(url)| && start + needed <= data.Length
    modifies data
    ensures data[..start + needed] == old(data[..start]) + Encode(url)
    ensures data[start + needed..] == old(data[start + needed..])
  {
    var dst, src := start, 0;
    while src < |url|
      invariant src <= |url| && dst == start + |Encode(url[..src])| <= start + needed
      invariant data[..dst] == old(data[..start]) + Encode(url[..src])
      invariant data[start + needed..] == old(data[start + needed..])
    {
      EncodeStep(url, src);
      ghost var tail := data[start + needed..];
      dst := WriteByte(url[src], data, dst);
      assert data[start + needed..] == data[dst..][start + needed - dst..] == tail;
      src := src + 1;
    }
    assert url[..src] == url;
  }

  /** Append the encoding of `url` to a buffer. */
  method EncodeUrl(url: bytes, buf: Buffer) returns (needed: nat)
    requires buf.Valid()
    modifies buf, buf.data
    ensures buf.Valid() && (buf.data == old(buf.data) || fresh(buf.data))
    ensures buf.Contents() == old(buf.Contents()) + Encode(url)
    ensures needed == |Encode(url)|
  {
    needed := Needed(url);
    buf.Allocate(needed);
    WriteEncoded(url, buf.data, buf.used, needed);
    buf.used := buf.used + needed;
  }
}

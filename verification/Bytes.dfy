/** Bytes as the server reads them: unsigned, with the characters its parsers test for. */
module Bytes {
  type byte = x: int | 0 <= x < 256

  type bytes = seq<byte>

  const TAB: byte := 0x09
  const LF: byte := 0x0a
  const CR: byte := 0x0d
  const SPACE: byte := 0x20
  const HASH: byte := 0x23
  const PERCENT: byte := 0x25
  const COMMA: byte := 0x2c
  const MINUS: byte := 0x2d
  const DOT: byte := 0x2e
  const SLASH: byte := 0x2f
  const COLON: byte := 0x3a
  const SEMICOLON: byte := 0x3b
  const QUESTION: byte := 0x3f
  const UNDERSCORE: byte := 0x5f
  const TILDE: byte := 0x7e

  predicate IsDigit(c: byte) {
    0x30 <= c <= 0x39
  }

  predicate IsAlpha(c: byte) {
    0x41 <= c <= 0x5a || 0x61 <= c <= 0x7a
  }

  predicate IsBlank(c: byte) {
    c == SPACE || c == TAB
  }

  /** The digit of a value, in lower or in upper case. */
  ghost predicate IsHexDigit(c: byte, value: int) {
    0 <= value < 16 && (c as char == "0123456789abcdef"[value] || c as char == "0123456789ABCDEF"[value])
  }

  /** The value of a hexadecimal digit of either case, or -1. */
  function HexValue(c: byte): (v: int)
    ensures -1 <= v < 16
  {
    if IsDigit(c) then c - 0x30
    else if 0x41 <= c <= 0x46 then c - 0x41 + 10
    else if 0x61 <= c <= 0x66 then c - 0x61 + 10
    else -1
  }

  /** A hexadecimal digit has a value, which is its own, and nothing else has one. */
  lemma HexValueIs(c: byte, value: int)
    ensures HexValue(c) >= 0 <==> '0' <= c as char <= '9' || 'a' <= c as char <= 'f' || 'A' <= c as char <= 'F'
    ensures HexValue(c) == value >= 0 <==> IsHexDigit(c, value)
  {
  }

  /** Letters of both cases and digits are what their characters say. */
  lemma ClassesAre(c: byte)
    ensures IsDigit(c) <==> '0' <= c as char <= '9'
    ensures IsAlpha(c) <==> 'A' <= c as char <= 'Z' || 'a' <= c as char <= 'z'
    ensures IsBlank(c) <==> c as char == ' ' || c as char == '\t'
  {
  }

  /** The characters have their names. */
  lemma CharactersAre()
    ensures [TAB, LF, CR, SPACE, HASH, PERCENT, COMMA, MINUS, DOT, SLASH, COLON, SEMICOLON, QUESTION, UNDERSCORE, TILDE]
            == Ascii("\t\n\r #%,-./:;?_~")
  {
  }

  /** The bytes of an ASCII text. */
  function Ascii(s: string): (r: bytes)
    requires forall i :: 0 <= i < |s| ==> s[i] < 128 as char
    ensures |r| == |s| && forall i :: 0 <= i < |s| ==> r[i] as char == s[i]
  {
    seq(|s|, i requires 0 <= i < |s| => s[i] as int)
  }

  /** One byte, so many times. */
  function Repeat(c: byte, n: nat): (r: bytes)
    ensures |r| == n && forall i :: 0 <= i < n ==> r[i] == c
  {
    seq(n, _ => c)
  }

  /** The range of a 64-bit `size_t`. */
  const SIZE_T: nat := 0x1_0000_0000_0000_0000

  type SizeT = x: int | 0 <= x < SIZE_T

  /** All of a length below 65536 is kept, and of others what is left when 65536 has been taken off. */
  lemma U16Is(n: nat)
    ensures n < 65536 ==> U16(n) == n
    ensures n >= 65536 ==> U16(n) == U16(n - 65536)
  {
  }

  /** What an `unsigned short` keeps of a length. */
  function U16(n: nat): nat {
    n % 0x1_0000
  }
}

/**
  Percent-escapes as section 2.1 of RFC 3986 defines them: an octet written
  as '%' followed by two hexadecimal digits. Both encoders of this model
  (the form encoder of java.net.URLEncoder and the RFC 3986 encoder) write
  upper-case digits. Decode is the reference decoder the round-trip lemmas
  are stated against.
*/
module Percent {
  import opened Wrappers

  /** An octet of the UTF-8 form of a Java string. */
  newtype byte = x: int | 0 <= x < 256

  const SLASH: byte := 0x2F

  /** The character whose code point is the octet (ASCII and Latin-1). */
  function ToChar(b: byte): (c: char)
    ensures c as int == b as int
  {
    (b as int) as char
  }

  predicate IsHexDigit(c: char) {
    '0' <= c <= '9' || 'A' <= c <= 'F' || 'a' <= c <= 'f'
  }

  function HexValue(c: char): (n: int)
    requires IsHexDigit(c)
    ensures 0 <= n < 16
  {
    if c <= '9' then c as int - '0' as int
    else if c <= 'F' then c as int - 'A' as int + 10
    else c as int - 'a' as int + 10
  }

  /** The upper-case hexadecimal digit of n (Character.forDigit, upper-cased). */
  function HexDigit(n: int): (c: char)
    requires 0 <= n < 16
    ensures '0' <= c <= '9' || 'A' <= c <= 'F'
    ensures IsHexDigit(c) && HexValue(c) == n
  {
    if n < 10 then ('0' as int + n) as char else ('A' as int + n - 10) as char
  }

  /** The escape "%XX" of an octet, with upper-case hexadecimal digits. */
  function Escape(b: byte): (s: string)
    ensures |s| == 3 && s[0] == '%'
    ensures IsHexDigit(s[1]) && IsHexDigit(s[2])
    ensures HexValue(s[1]) * 16 + HexValue(s[2]) == b as int
  {
    ['%', HexDigit(b as int / 16), HexDigit(b as int % 16)]
  }

  function Prepend(b: byte, r: Option<seq<byte>>): Option<seq<byte>> {
    match r
    case Some(t) => Some([b] + t)
    case None => None
  }

  /**
    Decodes percent-escapes (either case of hexadecimal digit); when
    plusIsSpace holds, as in form decoding, '+' stands for a space. A '%'
    that does not start an escape, or a literal character outside ASCII,
    makes the text malformed (None).
  */
  function Decode(s: string, plusIsSpace: bool): Option<seq<byte>>
    decreases |s|
  {
    if s == [] then Some([])
    else if s[0] == '%' then
      if |s| >= 3 && IsHexDigit(s[1]) && IsHexDigit(s[2])
      then Prepend((HexValue(s[1]) * 16 + HexValue(s[2])) as byte, Decode(s[3..], plusIsSpace))
      else None
    else if s[0] == '+' && plusIsSpace then Prepend(0x20, Decode(s[1..], plusIsSpace))
    else if s[0] as int < 128 then Prepend((s[0] as int) as byte, Decode(s[1..], plusIsSpace))
    else None
  }

  /** An escape followed by anything decodes to its octet followed by the rest. */
  lemma DecodeEscape(b: byte, rest: string, plusIsSpace: bool)
    ensures Decode(Escape(b) + rest, plusIsSpace) == Prepend(b, Decode(rest, plusIsSpace))
  {
    var s := Escape(b) + rest;
    assert s[3..] == rest;
  }

  /** A literal ASCII character other than '%' (and '+' in form decoding) decodes to itself. */
  lemma DecodeLiteral(c: char, rest: string, plusIsSpace: bool)
    requires c as int < 128 && c != '%' && !(plusIsSpace && c == '+')
    ensures Decode([c] + rest, plusIsSpace) == Prepend((c as int) as byte, Decode(rest, plusIsSpace))
  {
    assert ([c] + rest)[1..] == rest;
  }

  /** In form decoding a '+' is a space. */
  lemma DecodePlus(rest: string)
    ensures Decode("+" + rest, true) == Prepend(0x20, Decode(rest, true))
  {
    assert ("+" + rest)[1..] == rest;
  }
}

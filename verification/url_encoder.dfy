/**
  java.net.URLEncoder.encode(value, "UTF-8"): the
  application/x-www-form-urlencoded encoding of section 17.13.4.1 of
  HTML 4.01, applied octet by octet to the UTF-8 form of the value.
  ASCII letters and digits and '.', '-', '*', '_' stay as they are, a space
  becomes '+', and every other octet becomes "%XX" with upper-case digits.
*/
module UrlEncoder {
  import opened Wrappers
  import opened Percent

  predicate IsAsciiAlphaNum(c: char) {
    'a' <= c <= 'z' || 'A' <= c <= 'Z' || '0' <= c <= '9'
  }

  /** The characters URLEncoder leaves unchanged. */
  predicate KeptLiteral(c: char) {
    IsAsciiAlphaNum(c) || c == '.' || c == '-' || c == '*' || c == '_'
  }

  /** The characters URLEncoder can produce. */
  predicate IsFormChar(c: char) {
    KeptLiteral(c) || c == '+' || c == '%'
  }

  /** The encoding of one octet: a single character, or the three-character escape. */
  function EncodeByte(b: byte): (s: string)
    ensures forall c | c in s :: IsFormChar(c)
    ensures |s| == 1 || s == Escape(b)
    ensures s[0] != '%' ==> |s| == 1
  {
    var c := ToChar(b);
    if KeptLiteral(c) then [c]
    else if c == ' ' then "+"
    else Escape(b)
  }

  /** URLEncoder.encode over the UTF-8 octets of a value. */
  function Encode(bs: seq<byte>): (s: string)
    ensures forall c | c in s :: IsFormChar(c)
    ensures |s| >= |bs|
  {
    if bs == [] then [] else EncodeByte(bs[0]) + Encode(bs[1..])
  }

  /** The form encoding never contains the query delimiters '&' and '='. */
  lemma NoQueryDelimiters(bs: seq<byte>)
    ensures '&' !in Encode(bs) && '=' !in Encode(bs)
  {
  }

  /**
    Every '%' in the form encoding starts a complete three-character escape:
    the two characters after it exist and are hexadecimal digits, so neither
    of them is a '%'. A match of "%7E" or "%2F" can therefore only be one
    whole escape, never parts of two.
  */
  lemma {:induction false} PercentStartsEscape(bs: seq<byte>, i: int)
    requires 0 <= i < |Encode(bs)| && Encode(bs)[i] == '%'
    ensures i + 2 < |Encode(bs)|
    ensures IsHexDigit(Encode(bs)[i + 1]) && IsHexDigit(Encode(bs)[i + 2])
  {
    var u := EncodeByte(bs[0]);
    var s := Encode(bs);
    assert s == u + Encode(bs[1..]);
    if i >= |u| {
      assert Encode(bs[1..])[i - |u|] == s[i];
      PercentStartsEscape(bs[1..], i - |u|);
    } else {
      assert u == Escape(bs[0]) && i == 0;
    }
  }

  /** Form decoding reads the encoding of one octet back as that octet. */
  lemma DecodeEncodeByte(b: byte, rest: string)
    ensures Decode(EncodeByte(b) + rest, true) == Prepend(b, Decode(rest, true))
  {
    var c := ToChar(b);
    if KeptLiteral(c) {
      DecodeLiteral(c, rest, true);
    } else if c == ' ' {
      DecodePlus(rest);
    } else {
      DecodeEscape(b, rest, true);
    }
  }

  /** Form decoding undoes the form encoding: no two values share an encoding. */
  lemma {:induction false} DecodeEncode(bs: seq<byte>)
    ensures Decode(Encode(bs), true) == Some(bs)
  {
    if bs != [] {
      DecodeEncodeByte(bs[0], Encode(bs[1..]));
      DecodeEncode(bs[1..]);
      assert [bs[0]] + bs[1..] == bs;
    }
  }
}

/**
  The percent-encoding HttpUtils.urlEncode is meant to produce, written
  directly, octet by octet: the unreserved characters of section 2.3 of
  RFC 3986 (ASCII letters and digits, '-', '.', '_', '~') stay literal and
  every other octet becomes a percent-escape (section 2.1). In path mode a
  '/' also stays literal, so that it keeps separating path segments.
*/
module Rfc3986 {
  import opened Wrappers
  import opened Percent
  import UrlEncoder

  /** The unreserved characters of section 2.3 of RFC 3986. */
  predicate Unreserved(c: char) {
    UrlEncoder.IsAsciiAlphaNum(c) || c == '-' || c == '.' || c == '_' || c == '~'
  }

  /** The encoding of one octet. */
  function EncodeByte(b: byte, path: bool): (s: string)
    ensures forall c | c in s :: Unreserved(c) || c == '%' || (path && c == '/')
    ensures |s| == 1 || s == Escape(b)
  {
    var c := ToChar(b);
    if Unreserved(c) then [c]
    else if path && c == '/' then "/"
    else Escape(b)
  }

  /** The whole value: the encodings of its octets, in order. */
  function Encode(bs: seq<byte>, path: bool): (s: string)
    ensures forall c | c in s :: Unreserved(c) || c == '%' || (path && c == '/')
  {
    if bs == [] then [] else EncodeByte(bs[0], path) + Encode(bs[1..], path)
  }

  /** The characters of a sequence of octets, one for one. */
  function Chars(bs: seq<byte>): (s: string)
    ensures |s| == |bs| && forall i | 0 <= i < |bs| :: s[i] as int == bs[i] as int
  {
    seq(|bs|, i requires 0 <= i < |bs| => ToChar(bs[i]))
  }

  /** Percent-decoding reads the encoding of one octet back as that octet. */
  lemma DecodeEncodeByte(b: byte, path: bool, rest: string)
    ensures Decode(EncodeByte(b, path) + rest, false) == Prepend(b, Decode(rest, false))
  {
    var c := ToChar(b);
    if Unreserved(c) || (path && c == '/') {
      DecodeLiteral(c, rest, false);
    } else {
      DecodeEscape(b, rest, false);
    }
  }

  /** Percent-decoding undoes the encoding in both modes. */
  lemma {:induction false} DecodeEncode(bs: seq<byte>, path: bool)
    ensures Decode(Encode(bs, path), false) == Some(bs)
  {
    if bs != [] {
      DecodeEncodeByte(bs[0], path, Encode(bs[1..], path));
      DecodeEncode(bs[1..], path);
      assert [bs[0]] + bs[1..] == bs;
    }
  }

  /** A value made only of unreserved characters is its own encoding, in either mode. */
  lemma {:induction false} UnreservedUnchanged(bs: seq<byte>, path: bool)
    requires forall i | 0 <= i < |bs| :: Unreserved(ToChar(bs[i]))
    ensures Encode(bs, path) == Chars(bs)
  {
    if bs != [] {
      UnreservedUnchanged(bs[1..], path);
      assert Chars(bs) == [ToChar(bs[0])] + Chars(bs[1..]);
    }
  }

  lemma ByteSlashCount(b: byte)
    ensures multiset(EncodeByte(b, true))['/'] == multiset([b])[SLASH]
  {
    if b == SLASH {
      assert EncodeByte(b, true) == "/";
    } else {
      assert '/' !in EncodeByte(b, true);
    }
  }

  lemma CountAppend<T>(a: seq<T>, b: seq<T>, x: T)
    ensures multiset(a + b)[x] == multiset(a)[x] + multiset(b)[x]
  {
  }

  /** In path mode each '/' of the value is a '/' of the output. */
  lemma {:induction false} SlashCount(bs: seq<byte>)
    ensures multiset(Encode(bs, true))['/'] == multiset(bs)[SLASH]
  {
    if bs != [] {
      var u, t := EncodeByte(bs[0], true), Encode(bs[1..], true);
      assert Encode(bs, true) == u + t;
      assert bs == [bs[0]] + bs[1..];
      CountAppend(u, t, '/');
      CountAppend([bs[0]], bs[1..], SLASH);
      ByteSlashCount(bs[0]);
      SlashCount(bs[1..]);
    }
  }

  /** In the default mode no '/' survives. */
  lemma NoSlashByDefault(bs: seq<byte>)
    ensures '/' !in Encode(bs, false)
  {
  }

  /** Every '/' replaced by "%2F". */
  function EscapeSlashes(s: string): (r: string)
    ensures '/' !in r
  {
    if s == [] then []
    else (if s[0] == '/' then "%2F" else [s[0]]) + EscapeSlashes(s[1..])
  }

  lemma {:induction false} EscapeSlashesAppend(a: string, b: string)
    ensures EscapeSlashes(a + b) == EscapeSlashes(a) + EscapeSlashes(b)
  {
    if a != [] {
      assert (a + b)[1..] == a[1..] + b;
      EscapeSlashesAppend(a[1..], b);
    } else {
      assert a + b == b;
    }
  }

  lemma {:induction false} EscapeSlashesNone(s: string)
    requires '/' !in s
    ensures EscapeSlashes(s) == s
  {
    if s != [] {
      EscapeSlashesNone(s[1..]);
    }
  }

  /**
    Path mode differs from the default mode only in the slashes: escaping
    every '/' of the path-mode output gives the default-mode output.
  */
  lemma {:induction false} PathModeOnlyKeepsSlashes(bs: seq<byte>)
    ensures Encode(bs, false) == EscapeSlashes(Encode(bs, true))
  {
    if bs != [] {
      var b := bs[0];
      PathModeOnlyKeepsSlashes(bs[1..]);
      EscapeSlashesAppend(EncodeByte(b, true), Encode(bs[1..], true));
      if b == SLASH {
        assert EncodeByte(b, true) == "/";
        assert EscapeSlashes("/") == "%2F" + EscapeSlashes([]);
      } else {
        assert EncodeByte(b, true) == EncodeByte(b, false);
        EscapeSlashesNone(EncodeByte(b, true));
      }
    }
  }
}
